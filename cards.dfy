/**
  The card renderer of the build script: `make_link`, `render_cards` and the
  outer `parse_events`, which renders the open and the closed records.
 */
module Cards {
  import opened Text
  import opened Events

  /** `event.get(f, '')`: a missing key reads as the empty text. */
  function Get(e: Record, f: Field): string {
    if f in e then e[f] else ""
  }

  /** `make_link(href)`: a site-absolute link is made relative to the page
      through the `{{base}}` placeholder; any other link is kept. */
  function MakeLink(href: string): (r: string)
    ensures |href| <= |r| && r[|r| - |href|..] == href
    ensures r == href <==> !(href != [] && href[0] == '/')
    ensures r != href ==> r[..|r| - |href|] == "{{base}}"
  {
    if "/" <= href then "{{base}}" + href else href
  }

  /** The texts of the details line: the time, then the location, each only
      when it is not empty. */
  function Details(e: Record): (r: seq<string>)
    ensures |r| <= 2 && forall i :: 0 <= i < |r| ==> r[i] != ""
    ensures r == [] <==> Get(e, Time) == "" && Get(e, Location) == ""
    ensures Get(e, Time) != "" ==> r[0] == Get(e, Time)
    ensures Get(e, Location) != "" ==> r[|r| - 1] == Get(e, Location)
  {
    (if Get(e, Time) != "" then [Get(e, Time)] else [])
      + (if Get(e, Location) != "" then [Get(e, Location)] else [])
  }

  /** The fixed markup of a card, around and between the record's fields. */
  datatype Layout = Layout(
    detailsOpen: string, bullet: string,
    linkOpen: string, linkRest: string, titleAnchorRest: string,
    open: string, afterTitle: string, afterDate: string, afterDetails: string, afterDescription: string, close: string,
    separator: string)

  /** The markup `render_cards` writes. */
  const Markup: Layout := Layout(
    "<p class=\"text-dark-400 text-sm mb-2\">",
    " &bull; ",
    "<a href=\"",
    "\" class=\"inline-block mt-3 text-gold-500 hover:text-gold-400 text-sm font-medium transition-colors\">Learn more &rarr;</a>",
    "\" class=\"hover:text-gold-500 transition-colors\">",
    "<div class=\"bg-dark-900 border border-dark-600 rounded-lg p-6 hover:border-gold-700/50 transition-colors\">\n                    <div class=\"flex flex-col sm:flex-row sm:items-start sm:justify-between gap-2 mb-3\">\n                        <h3 class=\"font-display text-xl font-bold text-dark-50\">",
    "</h3>\n                        <span class=\"text-gold-500 font-medium text-sm whitespace-nowrap\">",
    "</span>\n                    </div>\n                    ",
    "\n                    <p class=\"text-dark-300 leading-relaxed\">",
    "</p>\n                    ",
    "\n                </div>",
    "\n                ")

  function DetailsHtml(m: Layout, e: Record): string {
    var details := Details(e);
    if details == [] then "" else m.detailsOpen + Join(details, m.bullet) + "</p>"
  }

  /** The details line is present exactly when the time or the location is
      not empty; with both, it shows the time, a bullet, then the location. */
  lemma DetailsLine(m: Layout, e: Record)
    ensures DetailsHtml(m, e) == "" <==> Get(e, Time) == "" && Get(e, Location) == ""
    ensures Get(e, Time) != "" && Get(e, Location) != "" ==>
      DetailsHtml(m, e) == m.detailsOpen + Get(e, Time) + m.bullet + Get(e, Location) + "</p>"
    ensures Get(e, Time) != "" && Get(e, Location) == "" ==>
      DetailsHtml(m, e) == m.detailsOpen + Get(e, Time) + "</p>"
    ensures Get(e, Time) == "" && Get(e, Location) != "" ==>
      DetailsHtml(m, e) == m.detailsOpen + Get(e, Location) + "</p>"
  {
    var details := Details(e);
    if |details| == 2 {
      assert Join(details[1..], m.bullet) == details[1];
    }
  }

  /** Where the card links to: the made link, or nothing. */
  function Target(e: Record): string {
    if Get(e, Link) != "" then MakeLink(Get(e, Link)) else ""
  }

  function LinkHtml(m: Layout, e: Record): string {
    var link := Target(e);
    if link != "" then m.linkOpen + link + m.linkRest else ""
  }

  function TitleHtml(m: Layout, e: Record): string {
    var link := Target(e);
    if link != "" then m.linkOpen + link + m.titleAnchorRest + Get(e, Title) + "</a>" else Get(e, Title)
  }

  /** The title is wrapped in an anchor, and the "Learn more" link is shown,
      exactly when the record's link is not empty; both point at the made link. */
  lemma Anchors(e: Record)
    ensures TitleHtml(Markup, e) == Get(e, Title) <==> Get(e, Link) == ""
    ensures LinkHtml(Markup, e) == "" <==> Get(e, Link) == ""
    ensures Get(e, Link) != "" ==>
      && TitleHtml(Markup, e) == Markup.linkOpen + MakeLink(Get(e, Link)) + Markup.titleAnchorRest + Get(e, Title) + "</a>"
      && LinkHtml(Markup, e) == Markup.linkOpen + MakeLink(Get(e, Link)) + Markup.linkRest
  {
    if Get(e, Link) != "" {
      assert |TitleHtml(Markup, e)| > |Get(e, Title)|;
    }
  }

  /** One card of `render_cards`. */
  function Card(m: Layout, e: Record): string {
    m.open + TitleHtml(m, e) + m.afterTitle + Get(e, Date) + m.afterDate + DetailsHtml(m, e)
      + m.afterDetails + Get(e, Description) + m.afterDescription + LinkHtml(m, e) + m.close
  }

  /** An empty value renders exactly like a missing key. */
  lemma EmptyLikeMissing(m: Layout, e: Record, f: Field)
    ensures Card(m, e[f := ""]) == Card(m, e - {f})
  {
    var a, b := e[f := ""], e - {f};
    forall g ensures Get(a, g) == Get(b, g) {
    }
    SameFieldsSameCard(m, a, b);
  }

  /** A card shows nothing of a record but the values `Get` reads from it. */
  lemma SameFieldsSameCard(m: Layout, a: Record, b: Record)
    requires forall g :: Get(a, g) == Get(b, g)
    ensures Card(m, a) == Card(m, b)
  {
    assert Get(a, Title) == Get(b, Title) && Get(a, Date) == Get(b, Date) && Get(a, Description) == Get(b, Description);
    assert Get(a, Time) == Get(b, Time) && Get(a, Location) == Get(b, Location) && Get(a, Link) == Get(b, Link);
    assert DetailsHtml(m, a) == DetailsHtml(m, b);
    assert TitleHtml(m, a) == TitleHtml(m, b) && LinkHtml(m, a) == LinkHtml(m, b);
  }

  /** The cards of the records, in order. */
  function Cards(m: Layout, records: seq<Record>): (r: seq<string>)
    ensures |r| == |records|
  {
    if records == [] then [] else [Card(m, records[0])] + Cards(m, records[1..])
  }

  /** The cards of two runs of records are the first run's cards, then the
      second run's. */
  lemma {:induction false} CardsAppend(m: Layout, a: seq<Record>, b: seq<Record>)
    ensures Cards(m, a + b) == Cards(m, a) + Cards(m, b)
  {
    if a == [] {
      assert a + b == b;
    } else {
      assert (a + b)[0] == a[0] && (a + b)[1..] == a[1..] + b;
      CardsAppend(m, a[1..], b);
    }
  }

  /** One more record adds its card at the end. */
  lemma CardsSnoc(m: Layout, a: seq<Record>, x: Record)
    ensures Cards(m, a + [x]) == Cards(m, a) + [Card(m, x)]
  {
    assert Cards(m, [x]) == [Card(m, x)] by {
      assert [x][1..] == [];
    }
    CardsAppend(m, a, [x]);
  }

  lemma PrefixStep(records: seq<Record>, i: nat)
    requires i < |records|
    ensures records[..i + 1] == records[..i] + [records[i]]
  {
  }

  /** `render_cards(records)`: the cards, in record order, one per line. */
  function CardsHtml(m: Layout, records: seq<Record>): string {
    Join(Cards(m, records), m.separator)
  }

  /** Rendering two runs of records puts the first run's cards, in order,
      before the second run's. */
  lemma CardsInOrder(m: Layout, a: seq<Record>, b: seq<Record>)
    requires a != [] && b != []
    ensures CardsHtml(m, a + b) == CardsHtml(m, a) + m.separator + CardsHtml(m, b)
  {
    CardsAppend(m, a, b);
    JoinAppend(Cards(m, a), Cards(m, b), m.separator);
  }

  /** One record renders to its card alone, and no records to nothing. */
  lemma CardsSingle(m: Layout, e: Record)
    ensures CardsHtml(m, [e]) == Card(m, e) && CardsHtml(m, []) == ""
  {
  }

  /** The body of the loop of `render_cards`: one card. */
  method RenderCard(m: Layout, event: Record) returns (card: string)
    ensures card == Card(m, event)
  {
    var details: seq<string> := [];
    if Get(event, Time) != "" {
      details := details + [Get(event, Time)];
    }
    if Get(event, Location) != "" {
      details := details + [Get(event, Location)];
    }
    assert details == Details(event);
    var detailsHtml := "";
    if details != [] {
      detailsHtml := m.detailsOpen + Join(details, m.bullet) + "</p>";
    }
    var link := if Get(event, Link) != "" then MakeLink(Get(event, Link)) else "";
    var linkHtml := "";
    if link != "" {
      linkHtml := m.linkOpen + link + m.linkRest;
    }
    var titleHtml := Get(event, Title);
    if link != "" {
      titleHtml := m.linkOpen + link + m.titleAnchorRest + titleHtml + "</a>";
    }
    card := m.open + titleHtml + m.afterTitle + Get(event, Date) + m.afterDate + detailsHtml
      + m.afterDetails + Get(event, Description) + m.afterDescription + linkHtml + m.close;
  }

  /** The loop of `render_cards`. */
  method RenderCards(m: Layout, records: seq<Record>) returns (html: string)
    ensures html == CardsHtml(m, records)
  {
    var cards: seq<string> := [];
    for i := 0 to |records|
      invariant cards == Cards(m, records[..i])
    {
      var card := RenderCard(m, records[i]);
      PrefixStep(records, i);
      CardsSnoc(m, records[..i], records[i]);
      cards := cards + [card];
    }
    assert records[..|records|] == records;
    html := Join(cards, m.separator);
  }

  /** `parse_events(text)`: the cards of the open events and of the closed
      events. */
  method ParseEvents(text: string) returns (openCards: string, closedCards: string)
    ensures openCards == CardsHtml(Markup, Parse(text).open)
    ensures closedCards == CardsHtml(Markup, Parse(text).closed)
  {
    var open, closed := ParseRecords(text);
    openCards := RenderCards(Markup, open);
    closedCards := RenderCards(Markup, closed);
  }
}
