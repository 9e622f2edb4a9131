/** Printed values with any whitespace between their tokens, and what the parser makes of them. */
module NotationLayout {
  import opened Bytes
  import opened Doubles
  import opened Osd
  import opened NotationCodec
  import opened NotationLaws

  // ---------- Layouts ----------

  /** The places whitespace can go: before and after a value, between the tag (or the size after it) and
      the quote of a UUID, link, date or binary, inside an empty container, and around the key of a map
      entry. What follows `[`, `{`, `,` and `:` is before a value or a key; what precedes `,`, `]` and
      `}` is after a value. */
  datatype Gap = Before | After | BeforeQuote | Inside | BeforeKey | AfterKey

  /** A layout says what stands in each gap of each value, found by its path from the root. */
  type Layout = (seq<nat>, Gap) -> string

  ghost predicate Blank(g: Layout) {
    forall path, gap :: AllIn(g(path, gap), IsWhitespace)
  }

  function Laid(v: OSD, g: Layout, path: seq<nat>, p: Platform): string
    decreases v, 1
  {
    g(path, Before) + LaidBody(v, g, path, p)
  }

  function LaidBody(v: OSD, g: Layout, path: seq<nat>, p: Platform): string
    decreases v, 0
  {
    match v
    case Array(items) => "[" + (if items == [] then g(path, Inside) else LaidItems(items, g, path, 0, p)) + "]"
    case Map(entries) => "{" + (if entries == [] then g(path, Inside) else LaidEntries(entries, g, path, 0, p)) + "}"
    case _ => SpacedLeaf(v, g(path, BeforeQuote), p)
  }

  function LaidItems(items: seq<OSD>, g: Layout, path: seq<nat>, i: nat, p: Platform): string
    decreases items, 0
  {
    if items == [] then ""
    else Laid(items[0], g, path + [i], p) + g(path + [i], After)
         + (if |items| == 1 then "" else "," + LaidItems(items[1..], g, path, i + 1, p))
  }

  function LaidKey(key: string, g: Layout, path: seq<nat>): string {
    g(path, BeforeKey) + Quoted(key, '\'') + g(path, AfterKey) + ":"
  }

  function LaidEntries(entries: seq<Entry>, g: Layout, path: seq<nat>, i: nat, p: Platform): string
    decreases entries, 0
  {
    if entries == [] then ""
    else LaidKey(entries[0].key, g, path + [i]) + Laid(entries[0].value, g, path + [i], p) + g(path + [i], After)
         + (if |entries| == 1 then "" else "," + LaidEntries(entries[1..], g, path, i + 1, p))
  }

  /** The layout the printer uses. */
  function Tight(): Layout {
    (path: seq<nat>, gap: Gap) => ""
  }

  lemma {:induction false} TightIsPrinted(v: OSD, path: seq<nat>, p: Platform)
    ensures Laid(v, Tight(), path, p) == Show(v, p)
    decreases v, 1
  {
    match v
    case Array(items) => TightItems(items, path, 0, p);
    case Map(entries) => TightEntries(entries, path, 0, p);
    case _ => UnspacedLeaf(v, p);
  }

  lemma {:induction false} TightItems(items: seq<OSD>, path: seq<nat>, i: nat, p: Platform)
    ensures LaidItems(items, Tight(), path, i, p) == ShowItems(items, p)
    decreases items, 0
  {
    if items == [] {
    } else {
      hide Laid, Show;
      TightIsPrinted(items[0], path + [i], p);
      TightItems(items[1..], path, i + 1, p);
    }
  }

  lemma TightKey(key: string, path: seq<nat>)
    ensures LaidKey(key, Tight(), path) == Quoted(key, '\'') + ":"
  {
    hide Quoted;
    assert "" + Quoted(key, '\'') + "" == Quoted(key, '\'');
  }

  lemma {:induction false} TightEntries(entries: seq<Entry>, path: seq<nat>, i: nat, p: Platform)
    ensures LaidEntries(entries, Tight(), path, i, p) == ShowEntries(entries, p)
    decreases entries, 0
  {
    if entries == [] {
    } else {
      hide Laid, Show, Quoted, LaidKey;
      TightKey(entries[0].key, path + [i]);
      TightIsPrinted(entries[0].value, path + [i], p);
      TightEntries(entries[1..], path, i + 1, p);
    }
  }

  // ---------- Leading whitespace ----------

  lemma {:induction false} SkipIsSolid(s: string)
    ensures Solid(SkipWhitespace(s))
  {
    hide IsWhitespace;
    if s != "" && IsWhitespace(s[0]) {
      SkipIsSolid(s[1..]);
      assert SkipWhitespace(s) == SkipWhitespace(s[1..]);
    }
  }

  lemma SkipTwice(s: string)
    ensures SkipWhitespace(SkipWhitespace(s)) == SkipWhitespace(s)
  {
    SkipIsSolid(s);
    SkipNothing(SkipWhitespace(s));
  }

  lemma ParseSkips(s: string, before: seq<OSD>, fields: seq<Entry>, p: Platform)
    ensures ParseValue(SkipWhitespace(s), p) == ParseValue(s, p)
    ensures ParseItems(SkipWhitespace(s), before, p) == ParseItems(s, before, p)
    ensures ParseEntries(SkipWhitespace(s), fields, p) == ParseEntries(s, fields, p)
  {
    hide SkipWhitespace, ParseLeaf, ParseArray, ParseMap, TakeKey;
    SkipTwice(s);
  }

  lemma StopAfter(gap: string, tail: string)
    requires AllIn(gap, IsWhitespace) && tail != "" && Stop(tail)
    ensures Stop(gap + tail)
  {
    if gap != "" {
      assert gap[0] in gap;
    }
  }

  lemma BodyOpening(v: OSD, g: Layout, path: seq<nat>, p: Platform)
    ensures var b := LaidBody(v, g, path, p); b != "" && Opening(b[0])
    ensures var b := LaidBody(v, g, path, p);
            (v.Array? <==> b[0] == '[') && (v.Map? <==> b[0] == '{')
  {
    if Leaf(v) {
      LeafOpening(v, g(path, BeforeQuote), p);
    }
  }

  /** Skipping the gap before a value leaves the value's own text. */
  lemma SkipToBody(v: OSD, g: Layout, path: seq<nat>, rest: string, p: Platform)
    requires Blank(g)
    ensures SkipWhitespace(Laid(v, g, path, p) + rest) == LaidBody(v, g, path, p) + rest
  {
    hide LaidBody, IsWhitespace, AllIn;
    var body := LaidBody(v, g, path, p) + rest;
    BodyOpening(v, g, path, p);
    OpeningIsSolid(body);
    assert Laid(v, g, path, p) + rest == g(path, Before) + body;
    SkipGap(g(path, Before), body);
  }

  lemma OpeningIsSolid(s: string)
    requires s != "" && Opening(s[0])
    ensures Solid(s)
  {
  }

  // ---------- Values in any layout ----------

  /** In any layout the parser gives back the value, up to what doubles lose, and stops at the text
      that follows it. */
  lemma {:induction false} LaidRoundTrip(v: OSD, g: Layout, path: seq<nat>, rest: string, p: Platform)
    requires Faithful(p) && Blank(g) && Stop(rest)
    ensures ParseValue(Laid(v, g, path, p) + rest, p) == Ok(Read(MapLeaves(v, Image()), rest))
    decreases v, 1
  {
    hide Laid, LaidBody, Faithful, Blank, Stop, SkipWhitespace, ParseLeaf, ParseArray, ParseMap,
      SpacedLeaf, LaidItems, LaidEntries, AllIn;
    SkipToBody(v, g, path, rest, p);
    BodyOpening(v, g, path, p);
    if v.Array? {
      LaidArray(v.items, g, path, rest, p);
    } else if v.Map? {
      LaidMap(v.entries, g, path, rest, p);
    } else {
      LaidLeaf(v, g, path, p);
      LeafRoundTrip(v, g(path, BeforeQuote), rest, p);
    }
  }

  lemma LaidLeaf(v: OSD, g: Layout, path: seq<nat>, p: Platform)
    requires Leaf(v)
    requires Blank(g)
    ensures LaidBody(v, g, path, p) == SpacedLeaf(v, g(path, BeforeQuote), p)
    ensures AllIn(g(path, BeforeQuote), IsWhitespace)
  {
    hide SpacedLeaf, AllIn;
  }

  lemma {:induction false} LaidArray(items: seq<OSD>, g: Layout, path: seq<nat>, rest: string, p: Platform)
    requires Faithful(p) && Blank(g)
    ensures var t := LaidBody(Array(items), g, path, p) + rest;
            t[0] == '[' && ParseArray(t[1..], p) == Ok(Read(Array(MapItems(items, Image())), rest))
    decreases items, 1
  {
    hide LaidItems, SkipWhitespace, ParseItems, Faithful, Stop;
    var t := LaidBody(Array(items), g, path, p) + rest;
    if items == [] {
      assert t[1..] == g(path, Inside) + ("]" + rest);
      SkipGap(g(path, Inside), "]" + rest);
      assert ("]" + rest)[1..] == rest;
    } else {
      var inner := LaidItems(items, g, path, 0, p) + "]" + rest;
      assert t[1..] == inner;
      SkipToFirst(items, g, path, "]" + rest, p);
      assert LaidItems(items, g, path, 0, p) + ("]" + rest) == inner;
      ParseSkips(inner, [], [], p);
      LaidItemsRoundTrip(items, g, path, 0, [], rest, p);
      assert [] + MapItems(items, Image()) == MapItems(items, Image());
    }
  }

  /** What follows the opening bracket is not the closing one. */
  lemma SkipToFirst(items: seq<OSD>, g: Layout, path: seq<nat>, rest: string, p: Platform)
    requires items != [] && Blank(g)
    ensures var s := SkipWhitespace(LaidItems(items, g, path, 0, p) + rest); s != "" && Opening(s[0])
  {
    hide Laid, LaidBody, SkipWhitespace;
    var more := g(path + [0], After) + (if |items| == 1 then "" else "," + LaidItems(items[1..], g, path, 1, p)) + rest;
    assert LaidItems(items, g, path, 0, p) + rest == Laid(items[0], g, path + [0], p) + more;
    SkipToBody(items[0], g, path + [0], more, p);
    BodyOpening(items[0], g, path + [0], p);
  }

  /** One item and what separates it from the next, or ends the array. */
  lemma ItemStep(s: string, v: OSD, gap: string, tail: string, before: seq<OSD>, p: Platform)
    requires ParseValue(s, p) == Ok(Read(v, gap + tail)) && AllIn(gap, IsWhitespace)
    requires tail != "" && (tail[0] == ',' || tail[0] == ']')
    ensures tail[0] == ',' ==> ParseItems(s, before, p) == ParseItems(tail[1..], before + [v], p)
    ensures tail[0] == ']' ==> ParseItems(s, before, p) == Ok(Read(before + [v], tail[1..]))
  {
    hide ParseValue, SkipWhitespace, AllIn;
    ParseSkips(s, before, [], p);
    SkipGap(gap, tail);
  }

  /** How the text of several items splits at the first. */
  lemma ItemsText(items: seq<OSD>, g: Layout, path: seq<nat>, i: nat, rest: string, p: Platform)
    requires items != []
    ensures LaidItems(items, g, path, i, p) + "]" + rest
         == Laid(items[0], g, path + [i], p)
            + (g(path + [i], After)
               + (if |items| == 1 then "]" + rest
                  else "," + (LaidItems(items[1..], g, path, i + 1, p) + "]" + rest)))
  {
    hide Laid;
  }

  lemma {:induction false} LaidItemsRoundTrip(items: seq<OSD>, g: Layout, path: seq<nat>, i: nat, before: seq<OSD>,
                                              rest: string, p: Platform)
    requires items != [] && Faithful(p) && Blank(g)
    ensures ParseItems(LaidItems(items, g, path, i, p) + "]" + rest, before, p)
         == Ok(Read(before + MapItems(items, Image()), rest))
    decreases items, 0
  {
    hide Laid, LaidItems, ParseItems, ParseValue, MapLeaves, Faithful;
    var at := path + [i];
    var v := MapLeaves(items[0], Image());
    var inner := LaidItems(items[1..], g, path, i + 1, p) + "]" + rest;
    var tail := if |items| == 1 then "]" + rest else "," + inner;
    ItemsText(items, g, path, i, rest, p);
    StopAfter(g(at, After), tail);
    LaidRoundTrip(items[0], g, at, g(at, After) + tail, p);
    ItemStep(Laid(items[0], g, at, p) + (g(at, After) + tail), v, g(at, After), tail, before, p);
    if |items| == 1 {
      assert tail[1..] == rest;
      assert items[1..] == [];
      assert MapItems(items, Image()) == [v];
    } else {
      assert tail[1..] == inner;
      LaidItemsRoundTrip(items[1..], g, path, i + 1, before + [v], rest, p);
      assert before + [v] + MapItems(items[1..], Image()) == before + MapItems(items, Image());
    }
  }

  lemma {:induction false} LaidMap(entries: seq<Entry>, g: Layout, path: seq<nat>, rest: string, p: Platform)
    requires Faithful(p) && Blank(g)
    ensures var t := LaidBody(Map(entries), g, path, p) + rest;
            t[0] == '{' && ParseMap(t[1..], p) == Ok(Read(Map(MapEntries(entries, Image())), rest))
    decreases entries, 1
  {
    hide LaidEntries, SkipWhitespace, ParseEntries, Faithful, Stop;
    var t := LaidBody(Map(entries), g, path, p) + rest;
    if entries == [] {
      assert t[1..] == g(path, Inside) + ("}" + rest);
      SkipGap(g(path, Inside), "}" + rest);
      assert ("}" + rest)[1..] == rest;
    } else {
      var inner := LaidEntries(entries, g, path, 0, p) + "}" + rest;
      assert t[1..] == inner;
      SkipToKey(entries, g, path, "}" + rest, p);
      assert LaidEntries(entries, g, path, 0, p) + ("}" + rest) == inner;
      ParseSkips(inner, [], [], p);
      LaidEntriesRoundTrip(entries, g, path, 0, [], rest, p);
      assert [] + MapEntries(entries, Image()) == MapEntries(entries, Image());
    }
  }

  lemma KeyGap(key: string, g: Layout, path: seq<nat>, rest: string)
    requires Blank(g)
    ensures SkipWhitespace(LaidKey(key, g, path) + rest) == Quoted(key, '\'') + (g(path, AfterKey) + (":" + rest))
  {
    hide AllIn, IsWhitespace, Escaped;
    var t := Quoted(key, '\'') + (g(path, AfterKey) + (":" + rest));
    assert t[0] == '\'';
    assert LaidKey(key, g, path) + rest == g(path, BeforeKey) + t;
    assert Solid(t) by { QuoteIsSolid(t); }
    SkipGap(g(path, BeforeKey), t);
  }

  lemma QuoteIsSolid(s: string)
    requires s != "" && (s[0] == '\'' || s[0] == ':')
    ensures Solid(s)
  {
  }

  lemma SkipToKey(entries: seq<Entry>, g: Layout, path: seq<nat>, rest: string, p: Platform)
    requires entries != [] && Blank(g)
    ensures var s := SkipWhitespace(LaidEntries(entries, g, path, 0, p) + rest); s != "" && s[0] == '\''
  {
    hide Laid, LaidKey, SkipWhitespace, Escaped;
    var more := Laid(entries[0].value, g, path + [0], p) + g(path + [0], After)
                + (if |entries| == 1 then "" else "," + LaidEntries(entries[1..], g, path, 1, p)) + rest;
    assert LaidEntries(entries, g, path, 0, p) + rest == LaidKey(entries[0].key, g, path + [0]) + more;
    KeyGap(entries[0].key, g, path + [0], more);
  }

  /** A key and its colon, in any layout. */
  lemma KeyStep(key: string, g: Layout, path: seq<nat>, rest: string)
    requires Blank(g)
    ensures var r := TakeKey(SkipWhitespace(LaidKey(key, g, path) + rest));
            r.Ok? && r.value.value == key && TakeColon(r.value.rest) == Ok(rest)
  {
    hide LaidKey, SkipWhitespace, TakeString, Escaped, AllIn, IsWhitespace;
    var after := g(path, AfterKey) + (":" + rest);
    KeyGap(key, g, path, rest);
    StringRoundTrip(key, '\'', after);
    QuoteIsSolid(":" + rest);
    SkipGap(g(path, AfterKey), ":" + rest);
    assert (":" + rest)[1..] == rest;
  }

  /** One entry and what separates it from the next, or ends the map. */
  lemma EntryStep(s: string, key: string, afterKey: string, t: string, v: OSD, gap: string, tail: string,
                  before: seq<Entry>, p: Platform)
    requires TakeKey(SkipWhitespace(s)) == Ok(Read(key, afterKey)) && TakeColon(afterKey) == Ok(t)
    requires ParseValue(t, p) == Ok(Read(v, gap + tail)) && AllIn(gap, IsWhitespace)
    requires tail != "" && (tail[0] == ',' || tail[0] == '}')
    ensures tail[0] == ',' ==> ParseEntries(s, before, p) == ParseEntries(tail[1..], before + [Entry(key, v)], p)
    ensures tail[0] == '}' ==> ParseEntries(s, before, p) == Ok(Read(before + [Entry(key, v)], tail[1..]))
  {
    hide ParseValue, SkipWhitespace, AllIn, TakeKey, TakeColon;
    ParseSkips(t, [], before, p);
    SkipGap(gap, tail);
  }

  /** How the text of several entries splits at the first. */
  lemma EntriesText(entries: seq<Entry>, g: Layout, path: seq<nat>, i: nat, rest: string, p: Platform)
    requires entries != []
    ensures LaidEntries(entries, g, path, i, p) + "}" + rest
         == LaidKey(entries[0].key, g, path + [i])
            + (Laid(entries[0].value, g, path + [i], p)
               + (g(path + [i], After)
                  + (if |entries| == 1 then "}" + rest
                     else "," + (LaidEntries(entries[1..], g, path, i + 1, p) + "}" + rest))))
  {
    hide Laid, LaidKey;
  }

  lemma {:induction false} LaidEntriesRoundTrip(entries: seq<Entry>, g: Layout, path: seq<nat>, i: nat,
                                                before: seq<Entry>, rest: string, p: Platform)
    requires entries != [] && Faithful(p) && Blank(g)
    ensures ParseEntries(LaidEntries(entries, g, path, i, p) + "}" + rest, before, p)
         == Ok(Read(before + MapEntries(entries, Image()), rest))
    decreases entries, 0
  {
    hide Laid, LaidKey, LaidEntries, ParseEntries, ParseValue, MapLeaves, Faithful, TakeKey, TakeColon, SkipWhitespace;
    var at, e := path + [i], entries[0];
    var read := Entry(e.key, MapLeaves(e.value, Image()));
    var inner := LaidEntries(entries[1..], g, path, i + 1, p) + "}" + rest;
    var tail := if |entries| == 1 then "}" + rest else "," + inner;
    var t := Laid(e.value, g, at, p) + (g(at, After) + tail);
    EntriesText(entries, g, path, i, rest, p);
    StopAfter(g(at, After), tail);
    LaidRoundTrip(e.value, g, at, g(at, After) + tail, p);
    KeyStep(e.key, g, at, t);
    EntryStep(LaidKey(e.key, g, at) + t, e.key, TakeKey(SkipWhitespace(LaidKey(e.key, g, at) + t)).value.rest,
              t, read.value, g(at, After), tail, before, p);
    if |entries| == 1 {
      assert tail[1..] == rest;
      assert entries[1..] == [];
      assert MapEntries(entries, Image()) == [read];
    } else {
      assert tail[1..] == inner;
      LaidEntriesRoundTrip(entries[1..], g, path, i + 1, before + [read], rest, p);
      assert before + [read] + MapEntries(entries[1..], Image()) == before + MapEntries(entries, Image());
    }
  }

  // ---------- The main results ----------

  lemma LaidHasNoHeader(v: OSD, g: Layout, lead: string, rest: string, p: Platform)
    requires Blank(g) && AllIn(lead, IsWhitespace)
    ensures WithoutHeader(lead + (Laid(v, g, [], p) + rest)) == Ok(LaidBody(v, g, [], p) + rest)
  {
    hide Laid, LaidBody;
    var body := LaidBody(v, g, [], p) + rest;
    SkipLead(v, g, lead, rest, p);
    BodyOpening(v, g, [], p);
    assert HEADER[0] == '<' && body[0] != '<';
  }

  /** Whitespace in front of a laid-out value is skipped together with the value's own gap. */
  lemma SkipLead(v: OSD, g: Layout, lead: string, rest: string, p: Platform)
    requires Blank(g) && AllIn(lead, IsWhitespace)
    ensures SkipWhitespace(lead + (Laid(v, g, [], p) + rest)) == LaidBody(v, g, [], p) + rest
  {
    hide LaidBody, SkipWhitespace, IsWhitespace;
    var body := LaidBody(v, g, [], p) + rest;
    BodyOpening(v, g, [], p);
    OpeningIsSolid(body);
    assert lead + (Laid(v, g, [], p) + rest) == lead + g([], Before) + body;
    SkipGap(lead + g([], Before), body);
  }

  lemma LaidWithHeader(v: OSD, g: Layout, lead: string, newline: char, rest: string, p: Platform)
    requires Blank(g) && AllIn(lead, IsWhitespace) && newline as int < 0x80
    ensures WithoutHeader(lead + (HEADER + [newline] + (Laid(v, g, [], p) + rest))) == Ok(LaidBody(v, g, [], p) + rest)
  {
    hide Laid, LaidBody, IsWhitespace;
    var text := Laid(v, g, [], p) + rest;
    var t := HEADER + [newline] + text;
    assert Solid(t) by { HeaderIsSolid(t); }
    SkipGap(lead, t);
    assert HEADER <= t && t[|HEADER| + 1..] == text && t[|HEADER|] == newline;
    SkipToBody(v, g, [], rest, p);
  }

  lemma HeaderIsSolid(s: string)
    requires s != "" && s[0] == HEADER[0]
    ensures Solid(s)
  {
  }

  lemma BodyParses(v: OSD, g: Layout, rest: string, p: Platform)
    requires WellFormed(v) && Faithful(p) && Blank(g) && Stop(rest)
    ensures var r := ParseValue(SkipWhitespace(LaidBody(v, g, [], p) + rest), p);
            r.Ok? && Collapse(r.value.value) == MapLeaves(v, Image())
  {
    hide Laid, LaidBody, ParseValue, Faithful, Stop, Collapse, SkipWhitespace;
    SkipToBody(v, g, [], rest, p);
    LaidRoundTrip(v, g, [], rest, p);
    SkipTwice(Laid(v, g, [], p) + rest);
    ParseSkips(Laid(v, g, [], p) + rest, [], [], p);
    MapLeavesWellFormed(v, Image());
    CollapseIdentity(MapLeaves(v, Image()));
  }

  /** Layout independence, for a value a caller can hold: with any whitespace in every gap, with or
      without the header and its newline, and with any text that cannot extend a number or a word
      after it, a document parses to the same tree. */
  lemma LayoutIndependence(v: OSD, g: Layout, lead: string, rest: string, p: Platform)
    requires WellFormed(v) && Faithful(p) && Blank(g) && AllIn(lead, IsWhitespace) && Stop(rest)
    ensures Parse(lead + (Laid(v, g, [], p) + rest), p) == Ok(MapLeaves(v, Image()))
    ensures Parse(lead + (HEADER + "\n" + (Laid(v, g, [], p) + rest)), p) == Ok(MapLeaves(v, Image()))
  {
    hide Laid, LaidBody, ParseValue, Faithful, Stop, WithoutHeader, AllIn, Blank;
    BodyParses(v, g, rest, p);
    LaidHasNoHeader(v, g, lead, rest, p);
    LaidWithHeader(v, g, lead, '\n', rest, p);
  }

  /** The round trip of the printer's own layout. */
  lemma RoundTrip(v: OSD, p: Platform)
    requires WellFormed(v) && Faithful(p)
    ensures Parse(Format(v, p), p) == Ok(MapLeaves(v, Image()))
    ensures Parse(Show(v, p), p) == Ok(MapLeaves(v, Image()))
  {
    hide Laid, Show, Parse, Faithful;
    TightIsPrinted(v, [], p);
    LayoutIndependence(v, Tight(), "", "", p);
    assert "" + (Show(v, p) + "") == Show(v, p);
    assert "" + (HEADER + "\n" + (Show(v, p) + "")) == Format(v, p);
  }

  /** A value comes back exactly when it holds no negative finite double and no unusual NaN. */
  lemma RoundTripExactly(v: OSD, p: Platform)
    requires WellFormed(v) && Faithful(p)
    ensures Parse(Format(v, p), p) == Ok(v) <==> All(v, Kept())
  {
    RoundTrip(v, p);
    KeptIsFixed();
    MapLeavesFixes(v, Image(), Kept());
  }

  lemma KeptIsFixed()
    ensures forall x: OSD :: Kept()(x) <==> (Leaf(x) ==> Image()(x) == x)
  {
  }

  /** A negative finite double comes back as its absolute value: the same bits without the sign. */
  lemma NegativeBecomesPositive(bits: f64, p: Platform)
    requires Faithful(p) && Finite(bits) && Negative(bits)
    ensures Parse(Format(Real(bits), p), p) == Ok(Real(bits - SIGN)) && bits - SIGN != bits
  {
    hide Parse, Format, Faithful;
    RoundTrip(Real(bits), p);
  }

  // ---------- The header ----------

  /** A document with the header, one more character and a text, read without the header. */
  lemma HeaderDropsOne(c: char, text: string)
    requires c as int < 0x80
    ensures WithoutHeader(HEADER + [c] + text) == Ok(SkipWhitespace(text))
  {
    hide SkipWhitespace;
    var t := HEADER + [c] + text;
    HeaderIsSolid(t);
    SkipNothing(t);
    assert HEADER <= t && t[|HEADER|] == c && t[|HEADER| + 1..] == text;
  }

  lemma WhitespaceAfterHeader(c: char, text: string, p: Platform)
    requires c as int < 0x80 && IsWhitespace(c) && !(HEADER <= SkipWhitespace(text))
    ensures Parse(HEADER + [c] + text, p) == Parse([c] + text, p)
  {
    hide ParseValue, Collapse, IsWhitespace;
    HeaderDropsOne(c, text);
    assert ([c] + text)[1..] == text;
    assert SkipWhitespace([c] + text) == SkipWhitespace(text);
  }

  /** Only one header is taken off: before a second one the parser stops, whatever follows. */
  lemma SecondHeader(c: char, text: string, p: Platform)
    requires c as int < 0x80 && HEADER <= SkipWhitespace(text)
    ensures Parse(HEADER + [c] + text, p) == Err(InvalidToken('<'))
  {
    hide SkipWhitespace, IsWhitespace;
    HeaderDropsOne(c, text);
    SkipTwice(text);
    assert SkipWhitespace(text)[0] == HEADER[0] == '<';
    HeaderIsNoValue(SkipWhitespace(text), p);
  }

  lemma HeaderIsNoValue(t: string, p: Platform)
    requires t != "" && t[0] == '<' && SkipWhitespace(t) == t
    ensures ParseValue(t, p) == Err(InvalidToken('<'))
  {
    hide SkipWhitespace;
  }

  /** After an ASCII whitespace character the header changes nothing exactly when the text has no header
      of its own, or one that does not help it: two headers are an error at the second. */
  lemma HeaderHarmlessExactly(c: char, text: string, p: Platform)
    requires c as int < 0x80 && IsWhitespace(c)
    ensures Parse(HEADER + [c] + text, p) == Parse([c] + text, p)
       <==> !(HEADER <= SkipWhitespace(text)) || Parse([c] + text, p) == Err(InvalidToken('<'))
  {
    hide Parse, SkipWhitespace, IsWhitespace;
    if HEADER <= SkipWhitespace(text) {
      SecondHeader(c, text, p);
    } else {
      WhitespaceAfterHeader(c, text, p);
    }
  }

  /** So for a text that is accepted as it is the header changes nothing exactly when the text has none. */
  lemma HeaderHarmlessToAccepted(c: char, text: string, p: Platform)
    requires c as int < 0x80 && IsWhitespace(c) && Parse([c] + text, p).Ok?
    ensures Parse(HEADER + [c] + text, p) == Parse([c] + text, p) <==> !(HEADER <= SkipWhitespace(text))
  {
    hide Parse, SkipWhitespace, IsWhitespace;
    HeaderHarmlessExactly(c, text, p);
  }

  /** A document that a second header spoils. */
  lemma SecondHeaderSpoils(p: Platform)
    ensures Parse("\n" + (HEADER + "\n!"), p) == Ok(Undef)
    ensures Parse(HEADER + "\n" + (HEADER + "\n!"), p) == Err(InvalidToken('<'))
  {
    hide SkipWhitespace;
    var text := HEADER + "\n!";
    assert text == HEADER + ['\n'] + "!" == HEADER + "\n" + "!";
    HeaderIsSolid(text);
    SkipNothing(text);
    SkipGap("\n", text);
    SkipNothing("!");
    HeaderDropsOne('\n', "!");
    assert "\n" + text == ['\n'] + text;
    SecondHeader('\n', text, p);
  }

  /** Where the cut falls inside a character the source aborts, even after whitespace. */
  lemma NonAsciiAfterHeader(c: char, p: Platform)
    requires c as int >= 0x80
    ensures Parse(HEADER + [c] + "!", p) == Err(HeaderCutShort) != Parse([c] + "!", p)
    ensures !(HEADER <= SkipWhitespace("!"))
  {
    hide SkipWhitespace, ParseValue;
    var t := HEADER + [c] + "!";
    HeaderIsSolid(t);
    SkipNothing(t);
    SkipNothing("!");
    assert HEADER <= t && t[|HEADER|] == c;
    NonAsciiAlone(c, p);
  }

  /** Read without the header, such a text is a value or an invalid token. */
  lemma NonAsciiAlone(c: char, p: Platform)
    requires c as int >= 0x80
    ensures Parse([c] + "!", p) == if IsWhitespace(c) then Ok(Undef) else Err(InvalidToken(c))
  {
    hide SkipWhitespace, ParseArray, ParseMap;
    var t := [c] + "!";
    SkipNothing("!");
    if IsWhitespace(c) {
      SkipGap([c], "!");
    } else {
      SkipNothing(t);
    }
    assert !(HEADER <= SkipWhitespace(t)) by { assert HEADER[0] == '<'; }
  }

  /** After any other character there is a text the header changes the meaning of. */
  lemma OtherAfterHeader(c: char, p: Platform)
    requires c as int < 0x80 && !IsWhitespace(c)
    ensures var text := if c == '!' then "" else "!";
            !(HEADER <= SkipWhitespace(text)) && Parse(HEADER + [c] + text, p) != Parse([c] + text, p)
  {
    hide Span, SkipWhitespace, ParseArray, ParseMap;
    var text := if c == '!' then "" else "!";
    HeaderDropsOne(c, text);
    SkipNothing(text);
    SkipNothing([c] + text);
    OnlyUndef([c] + text, p);
    CollapsesToUndef([c] + text, p);
  }

  lemma CollapsesToUndef(t: string, p: Platform)
    ensures ParseValue(t, p).Ok? && Collapse(ParseValue(t, p).value.value) == Undef ==>
              ParseValue(t, p).value.value == Undef
  {
    hide ParseValue;
  }

  /** The header can be put in front of every text that starts with c, and has no header after it,
      without changing what it parses to exactly when c is ASCII whitespace: the byte after the header
      is always cut off, whatever it is. */
  lemma HeaderNeedsWhitespace(c: char, p: Platform)
    ensures c as int < 0x80 && IsWhitespace(c)
       <==> forall text: string | !(HEADER <= SkipWhitespace(text)) ::
              Parse(HEADER + [c] + text, p) == Parse([c] + text, p)
  {
    hide Parse, SkipWhitespace;
    if c as int >= 0x80 {
      NonAsciiAfterHeader(c, p);
    } else if IsWhitespace(c) {
      forall text: string | !(HEADER <= SkipWhitespace(text))
        ensures Parse(HEADER + [c] + text, p) == Parse([c] + text, p)
      {
        WhitespaceAfterHeader(c, text, p);
      }
    } else {
      OtherAfterHeader(c, p);
    }
  }

  /** Nothing but an exclamation mark reads as the undefined value. */
  lemma OnlyUndef(t: string, p: Platform)
    requires t != "" && Solid(t)
    ensures var r := ParseValue(t, p); r.Ok? && r.value.value == Undef ==> t[0] == '!'
  {
    SkipNothing(t);
  }

  // ---------- Every document ----------

  /** A value that was read holds no more values than the characters it took. */
  lemma {:induction false} ValuesRead(s: string, p: Platform)
    requires ParseValue(s, p).Ok?
    ensures var g := ParseValue(s, p).value; Nodes(g.value) + |g.rest| <= |s|
    decreases |s|, 0
  {
    hide SkipWhitespace, ParseLeaf;
    var t := SkipWhitespace(s);
    if t[0] == '[' {
      var u := SkipWhitespace(t[1..]);
      if u == "" || u[0] != ']' {
        var read := ItemsRead(u, [], p);
        assert [] + read == read;
      }
    } else if t[0] == '{' {
      var u := SkipWhitespace(t[1..]);
      if u == "" || u[0] != '}' {
        var read := EntriesRead(u, [], p);
        assert [] + read == read;
      }
    }
  }

  lemma {:induction false} ItemsRead(s: string, before: seq<OSD>, p: Platform) returns (read: seq<OSD>)
    requires ParseItems(s, before, p).Ok?
    ensures var g := ParseItems(s, before, p).value;
            g.value == before + read && NodesOfItems(read) + |g.rest| < |s|
    decreases |s|, 1
  {
    hide SkipWhitespace, ParseValue, Nodes;
    var first := ParseValue(SkipWhitespace(s), p).value;
    ValuesRead(SkipWhitespace(s), p);
    var t := SkipWhitespace(first.rest);
    if t[0] == ',' {
      var tail := ItemsRead(t[1..], before + [first.value], p);
      read := [first.value] + tail;
      assert read[1..] == tail && before + [first.value] + tail == before + read;
    } else {
      read := [first.value];
      assert read[1..] == [];
    }
  }

  lemma {:induction false} EntriesRead(s: string, before: seq<Entry>, p: Platform) returns (read: seq<Entry>)
    requires ParseEntries(s, before, p).Ok?
    ensures var g := ParseEntries(s, before, p).value;
            g.value == before + read && NodesOfEntries(read) + |g.rest| < |s|
    decreases |s|, 1
  {
    hide SkipWhitespace, ParseValue, Nodes, TakeKey, TakeColon;
    var key := TakeKey(SkipWhitespace(s)).value;
    var u := SkipWhitespace(TakeColon(key.rest).value);
    var first := ParseValue(u, p).value;
    ValuesRead(u, p);
    var t, entry := SkipWhitespace(first.rest), Entry(key.value, first.value);
    if t[0] == ',' {
      var tail := EntriesRead(t[1..], before + [entry], p);
      read := [entry] + tail;
      assert read[1..] == tail && before + [entry] + tail == before + read;
    } else {
      read := [entry];
      assert read[1..] == [];
    }
  }

  /** A parsed document holds at most one value per character, and its maps have distinct keys. */
  lemma ValuesWithinInput(data: string, p: Platform)
    requires Parse(data, p).Ok?
    ensures Nodes(Parse(data, p).value) <= |data| && WellFormed(Parse(data, p).value)
  {
    hide ParseValue, Nodes, Collapse, WellFormed;
    var body := SkipWhitespace(WithoutHeader(data).value);
    ValuesRead(body, p);
    CollapseNodes(ParseValue(body, p).value.value);
    CollapseIsWellFormed(ParseValue(body, p).value.value);
  }

  lemma RealImageTwice(bits: f64)
    ensures RealImage(RealImage(bits)) == RealImage(bits)
  {
    var m := Magnitude(bits);
    assert m < SIGN ==> m % SIGN == m;
  }

  lemma ImageIsIdempotent()
    ensures KeepsLeaves(Image()) && IdempotentOnLeaves(Image())
  {
    hide RealImage;
    forall v: OSD | Leaf(v)
      ensures Leaf(Image()(v)) && Image()(Image()(v)) == Image()(v)
    {
      if v.Real? {
        RealImageTwice(v.bits);
      }
    }
  }

  /** Reformatting settles at once: whatever an accepted document parses to, printing and parsing it
      loses the signs it has to lose, and printing and parsing the outcome loses nothing more. */
  lemma ReformattingSettles(data: string, p: Platform)
    requires Faithful(p) && Parse(data, p).Ok?
    ensures var v := Parse(data, p).value;
            var once := Parse(Format(v, p), p);
            && once == Ok(MapLeaves(v, Image()))
            && Parse(Format(once.value, p), p) == once
  {
    hide *;
    var v := Parse(data, p).value;
    ImageIsIdempotent();
    ValuesWithinInput(data, p);
    RoundTrip(v, p);
    MapLeavesWellFormed(v, Image());
    RoundTrip(MapLeaves(v, Image()), p);
    MapLeavesTwice(v, Image());
  }
}
