/**
 * The rendering part of `fetchActivities`: each entry of the activities object becomes an
 * activity card and an option of the activity select.
 *
 * A card's inner HTML is a template literal. It is modelled as the sequence of its fragments:
 * literal template markup, data fields that go through the escaper, and the spots-left
 * number. The HTML is their concatenation. Whitespace between the template's tags is left out.
 */
module Render {
  import opened HtmlEscape
  import opened Decimal

  /**
   * One entry of the activities object: its key and its details. The roster is always present
   * (the source reads its length before any fallback).
   */
  datatype Activity = Activity(
    name: string,
    description: string,
    schedule: string,
    maxParticipants: int,
    participants: seq<string>)

  /** A fragment of a template literal. */
  datatype Frag =
    | Markup(html: string)  // template text, inserted as written
    | Field(text: string)   // `${escapeHtml(text)}`
    | Num(n: int)           // `${n}` for an integer n

  /** The text one fragment contributes. Data never contributes a markup delimiter. */
  function FragHtml(f: Frag): (r: string)
    ensures !f.Markup? ==> forall i :: 0 <= i < |r| ==> !IsMarkupDelimiter(r[i])
  {
    match f
    case Markup(h) => h
    case Field(t) => Escape(t)
    case Num(n) => IntText(n)
  }

  /** The HTML of a sequence of fragments: their texts, concatenated. */
  function Html(fs: seq<Frag>): string {
    if fs == [] then "" else FragHtml(fs[0]) + Html(fs[1..])
  }

  /** The template text alone: the HTML with every field and number left out. */
  function Template(fs: seq<Frag>): string {
    if fs == [] then "" else (if fs[0].Markup? then fs[0].html else "") + Template(fs[1..])
  }

  /** A fragment with its data blanked out. */
  function Blank(f: Frag): Frag {
    match f
    case Markup(_) => f
    case Field(_) => Field("")
    case Num(_) => Num(0)
  }

  /** Two fragment sequences that differ only in their data. */
  predicate SameShape(x: seq<Frag>, y: seq<Frag>) {
    |x| == |y| && forall i :: 0 <= i < |x| ==> Blank(x[i]) == Blank(y[i])
  }

  /** The number of occurrences of `c` in `s`. */
  function CharCount(c: char, s: string): nat {
    if s == [] then 0 else (if s[0] == c then 1 else 0) + CharCount(c, s[1..])
  }

  /** `spotsLeft` (src/static/app.js:32). */
  function SpotsLeft(a: Activity): int {
    a.maxParticipants - |a.participants|
  }

  const ItemWidth: nat := 12

  /** The content of a roster item: the participant in the span and in `data-email`, the activity in `data-activity`. */
  function Entry(p: string, name: string): (r: seq<Frag>)
    ensures |r| == ItemWidth - 2
  {
    [ Markup("<span class=\"participant-email\">"), Field(p), Markup("</span>"),
      Markup("<button class=\"remove-btn\" data-email=\""), Field(p),
      Markup("\" data-activity=\""), Field(name),
      Markup("\" title=\"Remove participant\">"), Markup("\U{2716}"), Markup("</button>") ]
  }

  /** One `<li>` of the roster. */
  function Item(p: string, name: string): (r: seq<Frag>)
    ensures |r| == ItemWidth
  {
    [Markup("<li>")] + Entry(p, name) + [Markup("</li>")]
  }

  /** `participants.map(p => item).join("")`: the items of the roster, in roster order. */
  function Items(ps: seq<string>, name: string): (r: seq<Frag>)
    ensures |r| == ItemWidth * |ps|
  {
    if ps == [] then [] else Item(ps[0], name) + Items(ps[1..], name)
  }

  const UlOpen := "<ul class=\"participants-list\">"
  const NoParticipants := "<p class=\"no-participants\">No participants yet</p>"

  /** The roster part of the card: a list for a non-empty roster, the placeholder otherwise. */
  function Section(a: Activity): seq<Frag> {
    if |a.participants| > 0 then [Markup(UlOpen)] + Items(a.participants, a.name) + [Markup("</ul>")]
    else [Markup(NoParticipants)]
  }

  const HeadWidth: nat := 14

  /** The card up to the roster: the escaped name, description and schedule, and the availability line. */
  function Head(a: Activity): (r: seq<Frag>)
    ensures |r| == HeadWidth
  {
    [ Markup("<h4>"), Field(a.name), Markup("</h4>"),
      Markup("<p>"), Field(a.description), Markup("</p>"),
      Markup("<p><strong>Schedule:</strong> "), Field(a.schedule), Markup("</p>"),
      Markup("<p><strong>Availability:</strong> "), Num(SpotsLeft(a)), Markup(" spots left</p>"),
      Markup("<div class=\"participants\">"), Markup("<h5>Participants</h5>") ]
  }

  /** The fragments of the card's inner HTML. */
  function CardFrags(a: Activity): seq<Frag> {
    Head(a) + Section(a) + [Markup("</div>")]
  }

  /** An activity card: its `data-activity` tag and the fragments of its inner HTML. */
  datatype Card = Card(activity: string, body: seq<Frag>) {
    function InnerHtml(): string { Html(body) }
  }

  function RenderCard(a: Activity): Card {
    Card(a.name, CardFrags(a))
  }

  /** An option of the activity select. */
  datatype SelectOption = SelectOption(value: string, text: string)

  const Placeholder := SelectOption("", "-- Select an activity --")

  /** What the activities area shows. */
  datatype ListView = CardList(cards: seq<Card>) | LoadError(html: string)

  /** The rendered page state that `fetchActivities` writes: the activities area and the select. */
  datatype Board = Board(list: ListView, options: seq<SelectOption>)

  /**
   * What the activities request yields, in the order the JSON object's entries are enumerated:
   * `LoadFailed` when the request or the parsing of its body fails, which happens before anything
   * is cleared; `Loaded` when every entry carries a roster; `BrokenAfter` when the body parses but
   * rendering throws once the area and the select have been cleared, after the well-formed
   * `entries` that come first. The status code is never inspected, so an error reply whose JSON body
   * is an object such as `{"detail": "Not Found"}` is `BrokenAfter([])` (reading `length` of its
   * missing roster throws), and so is a `null` body (`Object.entries(null)` throws).
   */
  datatype LoadReply = Loaded(entries: seq<Activity>) | BrokenAfter(entries: seq<Activity>) | LoadFailed

  const LoadErrorHtml := "<p>Failed to load activities. Please try again later.</p>"

  /**
   * `fetchActivities`: a failure before the body is parsed shows the error paragraph and keeps the
   * select's options. Otherwise both are cleared and one card and one option are appended per
   * entry, in entry order, after the select's placeholder; when an entry then throws, the error
   * paragraph replaces the cards while the options appended so far stay.
   */
  method FetchActivities(prev: Board, reply: LoadReply) returns (next: Board)
    ensures reply.LoadFailed? ==> next == Board(LoadError(LoadErrorHtml), prev.options)
    ensures reply.Loaded? ==>
      && next.list.CardList?
      && |next.list.cards| == |reply.entries|
      && (forall i :: 0 <= i < |reply.entries| ==> next.list.cards[i] == RenderCard(reply.entries[i]))
    ensures reply.BrokenAfter? ==> next.list == LoadError(LoadErrorHtml)
    ensures !reply.LoadFailed? ==>
      && |next.options| == |reply.entries| + 1
      && next.options[0] == Placeholder
      && (forall i :: 0 <= i < |reply.entries| ==>
            next.options[i + 1] == SelectOption(reply.entries[i].name, reply.entries[i].name))
  {
    if reply.LoadFailed? {
      return Board(LoadError(LoadErrorHtml), prev.options);
    }
    var entries := reply.entries;
    var cards: seq<Card> := [];
    var options := [Placeholder];
    for k := 0 to |entries|
      invariant |cards| == k && |options| == k + 1 && options[0] == Placeholder
      invariant forall i :: 0 <= i < k ==> cards[i] == RenderCard(entries[i])
      invariant forall i :: 0 <= i < k ==> options[i + 1] == SelectOption(entries[i].name, entries[i].name)
    {
      cards := cards + [RenderCard(entries[k])];
      options := options + [SelectOption(entries[k].name, entries[k].name)];
    }
    if reply.BrokenAfter? {
      // the entry without a roster throws before its card or option is appended
      return Board(LoadError(LoadErrorHtml), options);
    }
    next := Board(CardList(cards), options);
  }

  // ---------------------------------------------------------------------------------------
  // Availability

  /** The availability line shows `max_participants - participants.length`, as a number that reads back. */
  lemma SpotsShown(a: Activity)
    ensures CardFrags(a)[9] == Markup("<p><strong>Availability:</strong> ")
    ensures CardFrags(a)[10] == Num(a.maxParticipants - |a.participants|)
    ensures CardFrags(a)[11] == Markup(" spots left</p>")
    ensures IsNumeral(FragHtml(CardFrags(a)[10]))
    ensures ParseInt(FragHtml(CardFrags(a)[10])) == a.maxParticipants - |a.participants|
  {
    IntTextRoundTrip(SpotsLeft(a));
  }

  // ---------------------------------------------------------------------------------------
  // The roster

  /** The `i`-th item of the roster list is the item of the `i`-th participant. */
  lemma {:induction false} ItemsInRosterOrder(ps: seq<string>, name: string, i: nat)
    requires i < |ps|
    ensures Items(ps, name)[ItemWidth * i .. ItemWidth * i + ItemWidth] == Item(ps[i], name)
  {
    if i > 0 {
      ItemsInRosterOrder(ps[1..], name, i - 1);
      var rest := Items(ps[1..], name);
      assert Items(ps, name) == Item(ps[0], name) + rest;
      assert Items(ps, name)[ItemWidth * i .. ItemWidth * i + ItemWidth]
          == rest[ItemWidth * (i - 1) .. ItemWidth * (i - 1) + ItemWidth];
    }
  }

  /** Where the `i`-th participant's item starts among the card's fragments. */
  function ItemStart(i: nat): nat {
    HeadWidth + 1 + ItemWidth * i
  }

  /**
   * A non-empty roster renders one item per participant, in roster order, after the list's
   * opening tag: the escaped participant in the span and in `data-email`, the escaped
   * activity name in `data-activity`.
   */
  lemma CardItem(a: Activity, i: nat)
    requires i < |a.participants|
    ensures CardFrags(a)[HeadWidth] == Markup(UlOpen)
    ensures CardFrags(a)[ItemStart(i) .. ItemStart(i) + ItemWidth] == Item(a.participants[i], a.name)
    ensures CardFrags(a)[ItemStart(i)] == Markup("<li>")
    ensures CardFrags(a)[ItemStart(i) + 2] == Field(a.participants[i])
    ensures CardFrags(a)[ItemStart(i) + 4] == Markup("<button class=\"remove-btn\" data-email=\"")
    ensures CardFrags(a)[ItemStart(i) + 5] == Field(a.participants[i])
    ensures CardFrags(a)[ItemStart(i) + 7] == Field(a.name)
  {
    var fs := CardFrags(a);
    var items := Items(a.participants, a.name);
    ItemsInRosterOrder(a.participants, a.name, i);
    var pre := Head(a) + [Markup(UlOpen)];
    var post := [Markup("</ul>"), Markup("</div>")];
    assert fs == pre + items + post;
    SliceOfMiddle(pre, items, post, ItemWidth * i, ItemWidth * i + ItemWidth);
    var item := Item(a.participants[i], a.name);
    assert fs[ItemStart(i) .. ItemStart(i) + ItemWidth] == item;
    ItemLayout(a.participants[i], a.name);
    forall k | 0 <= k < ItemWidth ensures fs[ItemStart(i) + k] == item[k] {
      assert fs[ItemStart(i) .. ItemStart(i) + ItemWidth][k] == fs[ItemStart(i) + k];
    }
  }

  /** Where the data of an item sits. */
  lemma ItemLayout(p: string, name: string)
    ensures Item(p, name)[0] == Markup("<li>")
    ensures Item(p, name)[2] == Field(p)
    ensures Item(p, name)[4] == Markup("<button class=\"remove-btn\" data-email=\"")
    ensures Item(p, name)[5] == Field(p)
    ensures Item(p, name)[7] == Field(name)
  {
    var e := Entry(p, name);
    assert Item(p, name) == [Markup("<li>")] + e + [Markup("</li>")];
  }

  /** A slice of the middle part of a concatenation. */
  lemma SliceOfMiddle(pre: seq<Frag>, mid: seq<Frag>, post: seq<Frag>, lo: nat, hi: nat)
    requires lo <= hi <= |mid|
    ensures (pre + mid + post)[|pre| + lo .. |pre| + hi] == mid[lo..hi]
  {
    var s := pre + mid + post;
    assert forall k :: lo <= k < hi ==> s[|pre| + k] == mid[k];
  }

  lemma EntryHasNoListTag(p: string, name: string)
    ensures Markup("<li>") !in Entry(p, name)
    ensures Markup(UlOpen) !in Entry(p, name)
    ensures Markup(NoParticipants) !in Entry(p, name)
  {
  }

  /** The number of occurrences of fragment `f` in `fs`. */
  function Occurrences(f: Frag, fs: seq<Frag>): nat {
    if fs == [] then 0 else (if fs[0] == f then 1 else 0) + Occurrences(f, fs[1..])
  }

  lemma {:induction false} OccurrencesAppend(f: Frag, x: seq<Frag>, y: seq<Frag>)
    ensures Occurrences(f, x + y) == Occurrences(f, x) + Occurrences(f, y)
  {
    if x == [] {
      assert x + y == y;
    } else {
      assert (x + y)[1..] == x[1..] + y;
      OccurrencesAppend(f, x[1..], y);
    }
  }

  lemma {:induction false} OccurrencesAbsent(f: Frag, fs: seq<Frag>)
    requires f !in fs
    ensures Occurrences(f, fs) == 0
  {
    if fs != [] {
      assert forall k :: 0 <= k < |fs| - 1 ==> fs[1..][k] == fs[k + 1];
      OccurrencesAbsent(f, fs[1..]);
    }
  }

  /** The number of occurrences of `f` in a sequence made of one fragment and then `fs`. */
  lemma OccurrencesCons(f: Frag, g: Frag, fs: seq<Frag>)
    ensures Occurrences(f, [g] + fs) == (if g == f then 1 else 0) + Occurrences(f, fs)
  {
    assert ([g] + fs)[1..] == fs;
  }

  /** A roster yields exactly one list item opening per participant, and no list or placeholder. */
  lemma {:induction false} ItemsCount(ps: seq<string>, name: string)
    ensures Occurrences(Markup("<li>"), Items(ps, name)) == |ps|
    ensures Occurrences(Markup(UlOpen), Items(ps, name)) == 0
    ensures Occurrences(Markup(NoParticipants), Items(ps, name)) == 0
  {
    if ps != [] {
      ItemsCount(ps[1..], name);
      var e := Entry(ps[0], name);
      var rest := Items(ps[1..], name);
      EntryHasNoListTag(ps[0], name);
      assert Items(ps, name) == [Markup("<li>")] + (e + ([Markup("</li>")] + rest));
      forall f | f in {Markup("<li>"), Markup(UlOpen), Markup(NoParticipants)}
        ensures Occurrences(f, Items(ps, name)) == (if f == Markup("<li>") then 1 else 0) + Occurrences(f, rest)
      {
        OccurrencesCons(f, Markup("<li>"), e + ([Markup("</li>")] + rest));
        OccurrencesAppend(f, e, [Markup("</li>")] + rest);
        OccurrencesAbsent(f, e);
        OccurrencesCons(f, Markup("</li>"), rest);
      }
    }
  }

  /**
   * The card holds one `<li>` per participant. A non-empty roster renders exactly one
   * participants list and no placeholder; an empty one renders the placeholder and no list.
   */
  lemma ListTagCounts(a: Activity)
    ensures Occurrences(Markup("<li>"), CardFrags(a)) == |a.participants|
    ensures Occurrences(Markup(UlOpen), CardFrags(a)) == if |a.participants| > 0 then 1 else 0
    ensures Occurrences(Markup(NoParticipants), CardFrags(a)) == if |a.participants| > 0 then 0 else 1
  {
    HeadHasNoListTag(a);
    ItemsCount(a.participants, a.name);
    OnlySectionCounts(a, Markup("<li>"));
    OnlySectionCounts(a, Markup(UlOpen));
    OnlySectionCounts(a, Markup(NoParticipants));
    if |a.participants| > 0 {
      var items := Items(a.participants, a.name);
      assert Section(a) == [Markup(UlOpen)] + (items + [Markup("</ul>")]);
      ListCounts(Markup("<li>"), items);
      ListCounts(Markup(UlOpen), items);
      ListCounts(Markup(NoParticipants), items);
    } else {
      OccurrencesCons(Markup("<li>"), Markup(NoParticipants), []);
      OccurrencesCons(Markup(UlOpen), Markup(NoParticipants), []);
      OccurrencesCons(Markup(NoParticipants), Markup(NoParticipants), []);
    }
  }

  /** The occurrences of a fragment absent from the head and the closing tag are those of the roster part. */
  lemma OnlySectionCounts(a: Activity, f: Frag)
    requires f !in Head(a) && f != Markup("</div>")
    ensures Occurrences(f, CardFrags(a)) == Occurrences(f, Section(a))
  {
    OccurrencesAppend(f, Head(a) + Section(a), [Markup("</div>")]);
    OccurrencesAppend(f, Head(a), Section(a));
    OccurrencesAbsent(f, Head(a));
    OccurrencesCons(f, Markup("</div>"), []);
  }

  /** The occurrences of a fragment in a participants list. */
  lemma ListCounts(f: Frag, items: seq<Frag>)
    ensures Occurrences(f, [Markup(UlOpen)] + (items + [Markup("</ul>")]))
         == (if f == Markup(UlOpen) then 1 else 0) + Occurrences(f, items) + (if f == Markup("</ul>") then 1 else 0)
  {
    OccurrencesCons(f, Markup(UlOpen), items + [Markup("</ul>")]);
    OccurrencesAppend(f, items, [Markup("</ul>")]);
    OccurrencesCons(f, Markup("</ul>"), []);
  }

  lemma HeadHasNoListTag(a: Activity)
    ensures Markup("<li>") !in Head(a)
    ensures Markup(UlOpen) !in Head(a)
    ensures Markup(NoParticipants) !in Head(a)
  {
  }

  // ---------------------------------------------------------------------------------------
  // Injection safety

  lemma {:induction false} CharCountAppend(c: char, s: string, t: string)
    ensures CharCount(c, s + t) == CharCount(c, s) + CharCount(c, t)
  {
    if s == [] {
      assert s + t == t;
    } else {
      assert (s + t)[1..] == s[1..] + t;
      CharCountAppend(c, s[1..], t);
    }
  }

  lemma {:induction false} CharCountAbsent(c: char, s: string)
    requires forall i :: 0 <= i < |s| ==> s[i] != c
    ensures CharCount(c, s) == 0
  {
    if s != [] {
      CharCountAbsent(c, s[1..]);
    }
  }

  /** Every markup delimiter of the HTML comes from the template, none from the data. */
  lemma {:induction false} DelimitersFromTemplate(c: char, fs: seq<Frag>)
    requires IsMarkupDelimiter(c)
    ensures CharCount(c, Html(fs)) == CharCount(c, Template(fs))
  {
    if fs != [] {
      DelimitersFromTemplate(c, fs[1..]);
      CharCountAppend(c, FragHtml(fs[0]), Html(fs[1..]));
      var t := if fs[0].Markup? then fs[0].html else "";
      CharCountAppend(c, t, Template(fs[1..]));
      if !fs[0].Markup? {
        CharCountAbsent(c, FragHtml(fs[0]));
      }
    }
  }

  /** Sequences that differ only in their data have the same template. */
  lemma {:induction false} SameShapeSameTemplate(x: seq<Frag>, y: seq<Frag>)
    requires SameShape(x, y)
    ensures Template(x) == Template(y)
  {
    if x != [] {
      assert Blank(x[0]) == Blank(y[0]);
      assert SameShape(x[1..], y[1..]) by {
        forall i | 0 <= i < |x[1..]| ensures Blank(x[1..][i]) == Blank(y[1..][i]) {
          assert x[1..][i] == x[i + 1] && y[1..][i] == y[i + 1];
        }
      }
      SameShapeSameTemplate(x[1..], y[1..]);
    }
  }

  lemma SameShapeAppend(x: seq<Frag>, y: seq<Frag>, x': seq<Frag>, y': seq<Frag>)
    requires SameShape(x, y) && SameShape(x', y')
    ensures SameShape(x + x', y + y')
  {
    forall i | 0 <= i < |x + x'| ensures Blank((x + x')[i]) == Blank((y + y')[i]) {
      if i >= |x| {
        assert (x + x')[i] == x'[i - |x|] && (y + y')[i] == y'[i - |x|];
      }
    }
  }

  lemma {:induction false} ItemsSameShape(ps: seq<string>, qs: seq<string>, n: string, m: string)
    requires |ps| == |qs|
    ensures SameShape(Items(ps, n), Items(qs, m))
  {
    if ps != [] {
      ItemsSameShape(ps[1..], qs[1..], n, m);
      assert SameShape(Item(ps[0], n), Item(qs[0], m));
      SameShapeAppend(Item(ps[0], n), Item(qs[0], m), Items(ps[1..], n), Items(qs[1..], m));
    }
  }

  /** The markup of a card depends on the length of its roster and on nothing else. */
  lemma CardShape(a: Activity, b: Activity)
    requires |a.participants| == |b.participants|
    ensures SameShape(CardFrags(a), CardFrags(b))
  {
    assert SameShape(Head(a), Head(b));
    if |a.participants| > 0 {
      ItemsSameShape(a.participants, b.participants, a.name, b.name);
      SameShapeAppend([Markup(UlOpen)], [Markup(UlOpen)], Items(a.participants, a.name), Items(b.participants, b.name));
      SameShapeAppend([Markup(UlOpen)] + Items(a.participants, a.name), [Markup(UlOpen)] + Items(b.participants, b.name),
                      [Markup("</ul>")], [Markup("</ul>")]);
    }
    SameShapeAppend(Head(a), Head(b), Section(a), Section(b));
    SameShapeAppend(Head(a) + Section(a), Head(b) + Section(b), [Markup("</div>")], [Markup("</div>")]);
  }

  /**
   * Rendering is injection-safe: whatever the name, description, schedule, capacity and
   * participants hold, a card holds the same number of each of `<`, `>`, `"` and `'` as any other
   * card with a roster of the same length, so no data can open or close a tag or an attribute.
   */
  lemma CardMarkupIndependentOfData(a: Activity, b: Activity, c: char)
    requires |a.participants| == |b.participants|
    requires IsMarkupDelimiter(c)
    ensures CharCount(c, RenderCard(a).InnerHtml()) == CharCount(c, RenderCard(b).InnerHtml())
  {
    CardShape(a, b);
    SameShapeSameTemplate(CardFrags(a), CardFrags(b));
    DelimitersFromTemplate(c, CardFrags(a));
    DelimitersFromTemplate(c, CardFrags(b));
  }

  /** What a data fragment renders decodes back to the data: it is displayed literally. */
  lemma FieldDisplayedLiterally(t: string)
    ensures Unescape(FragHtml(Field(t))) == t
  {
    UnescapeEscape(t);
  }
}
