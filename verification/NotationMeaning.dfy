/** The parser accepts exactly the documents of the grammar, with exactly the values they spell. */
module NotationMeaning {
  import opened Bytes
  import opened Osd
  import opened NotationCodec
  import opened NotationLaws
  import opened NotationGrammar
  import opened NotationSpelling
  import opened NotationLeaves
  import NotationLayout

  // ---------- The parts of a document ----------

  lemma DocParts(t: string, v: OSD, p: Platform) returns (gap: string, b: string)
    requires Doc(t, v, p)
    ensures t == gap + b && Space(gap) && Body(b, v, p)
  {
    var i: nat :| DocAt(t, i, v, p);
    gap, b := t[..i], t[i..];
  }

  lemma JoinDoc(gap: string, b: string, v: OSD, p: Platform)
    requires Space(gap) && Body(b, v, p)
    ensures Doc(gap + b, v, p)
  {
    var t := gap + b;
    assert t[..|gap|] == gap && t[|gap|..] == b;
    assert DocAt(t, |gap|, v, p);
  }

  lemma JoinArray(inner: string, items: seq<OSD>, p: Platform)
    requires Items(inner, items, p)
    ensures Body("[" + inner + "]", Array(items), p)
  {
    hide Items;
    assert ("[" + inner + "]")[1..|inner| + 1] == inner;
  }

  lemma JoinMap(inner: string, entries: seq<Entry>, p: Platform)
    requires Fields(inner, entries, p)
    ensures Body("{" + inner + "}", Map(entries), p)
  {
    hide Fields;
    assert ("{" + inner + "}")[1..|inner| + 1] == inner;
  }

  /** What follows an item: nothing, or a comma and more items. */
  ghost predicate ItemsAfter(u: string, tail: seq<OSD>, p: Platform) {
    if tail == [] then u == "" else Tagged(u, ',') && Items(u[1..], tail, p)
  }

  lemma ItemsParts(t: string, items: seq<OSD>, p: Platform) returns (a: string, gap: string, u: string)
    requires items != [] && Items(t, items, p)
    ensures t == a + (gap + u) && Doc(a, items[0], p) && Space(gap) && ItemsAfter(u, items[1..], p)
  {
    var i: nat, j: nat :| ItemsAt(t, i, j, items, p);
    a, gap, u := t[..i], t[i..j], t[j..];
    assert MoreItems(u, items[1..], p);
  }

  lemma JoinItems(a: string, gap: string, u: string, items: seq<OSD>, p: Platform)
    requires items != [] && Doc(a, items[0], p) && Space(gap) && ItemsAfter(u, items[1..], p)
    ensures Items(a + (gap + u), items, p)
  {
    var t := a + (gap + u);
    assert MoreItems(u, items[1..], p);
    assert t[..|a|] == a && t[|a|..|a| + |gap|] == gap && t[|a| + |gap|..] == u;
    assert ItemsAt(t, |a|, |a| + |gap|, items, p);
  }

  ghost predicate FieldsAfter(u: string, tail: seq<Entry>, p: Platform) {
    if tail == [] then u == "" else Tagged(u, ',') && Fields(u[1..], tail, p)
  }

  lemma FieldsParts(t: string, entries: seq<Entry>, p: Platform) returns (f: string, gap: string, u: string)
    requires entries != [] && Fields(t, entries, p)
    ensures t == f + (gap + u) && Field(f, entries[0], p) && Space(gap) && FieldsAfter(u, entries[1..], p)
  {
    var i: nat, j: nat :| FieldsAt(t, i, j, entries, p);
    f, gap, u := t[..i], t[i..j], t[j..];
    assert MoreFields(u, entries[1..], p);
  }

  lemma JoinFields(f: string, gap: string, u: string, entries: seq<Entry>, p: Platform)
    requires entries != [] && Field(f, entries[0], p) && Space(gap) && FieldsAfter(u, entries[1..], p)
    ensures Fields(f + (gap + u), entries, p)
  {
    var t := f + (gap + u);
    assert MoreFields(u, entries[1..], p);
    assert t[..|f|] == f && t[|f|..|f| + |gap|] == gap && t[|f| + |gap|..] == u;
    assert FieldsAt(t, |f|, |f| + |gap|, entries, p);
  }

  lemma FieldParts(t: string, e: Entry, p: Platform)
    returns (lead: string, key: string, gap: string, d: string)
    requires Field(t, e, p)
    ensures t == lead + (key + (gap + (":" + d)))
    ensures Space(lead) && SpellsKey(key, e.key) && Space(gap) && Doc(d, e.value, p)
  {
    var h: nat, i: nat, j: nat :| FieldAt(t, h, i, j, e, p);
    lead, key, gap, d := t[..h], t[h..i], t[i..j], t[j + 1..];
  }

  lemma JoinField(lead: string, key: string, gap: string, d: string, e: Entry, p: Platform)
    requires Space(lead) && SpellsKey(key, e.key) && Space(gap) && Doc(d, e.value, p)
    ensures Field(lead + (key + (gap + (":" + d))), e, p)
  {
    hide SpellsKey, Doc, Space;
    var t := lead + (key + (gap + (":" + d)));
    var h := |lead|;
    var i := h + |key|;
    var j := i + |gap|;
    assert t[..h] == lead && t[h..i] == key && t[i..j] == gap && t[j] == ':' && t[j + 1..] == d;
    assert FieldAt(t, h, i, j, e, p);
  }

  // ---------- What is spelled is read ----------

  /** The characters a value can start with. */
  predicate StartsValue(c: char) {
    Starts(c) || c == '[' || c == '{'
  }

  lemma StartIsSolid(s: string)
    requires s != "" && StartsValue(s[0])
    ensures Solid(s) && SkipWhitespace(s) == s && s[0] != ']' && s[0] != '}'
  {
    SkipNothing(s);
  }

  lemma BodyStarts(b: string, v: OSD, p: Platform)
    requires Body(b, v, p)
    ensures b != "" && StartsValue(b[0]) && (v.Array? <==> b[0] == '[') && (v.Map? <==> b[0] == '{')
  {
    hide Items, Fields, SignedNumeral, RealSpelled, UuidText, ProperlySized, Spaced, DateText, BinaryText, Delimited;
  }

  /** The text of a document after its leading whitespace. */
  lemma SkipToBody(gap: string, b: string, v: OSD, rest: string, p: Platform)
    requires Space(gap) && Body(b, v, p)
    ensures b != "" && StartsValue(b[0]) && SkipWhitespace(gap + b + rest) == b + rest
  {
    hide Body, IsWhitespace, Starts, AllIn, SkipWhitespace;
    BodyStarts(b, v, p);
    StartIsSolid(b + rest);
    Associative(gap, b, rest);
    SkipGap(gap, b + rest);
  }

  lemma {:induction false} DocReads(t: string, v: OSD, rest: string, p: Platform)
    requires Doc(t, v, p) && Stop(rest)
    ensures ParseValue(t + rest, p) == Ok(Read(v, rest))
    decreases v, 3
  {
    hide ParseValue, SkipWhitespace, Doc, Body, Space, Stop, Starts;
    var gap, b := DocParts(t, v, p);
    SkipToBody(gap, b, v, rest, p);
    BodyReads(b, v, rest, p);
    NotationLayout.ParseSkips(t + rest, [], [], p);
  }

  lemma {:induction false} BodyReads(b: string, v: OSD, rest: string, p: Platform)
    requires Body(b, v, p) && Stop(rest)
    ensures ParseValue(b + rest, p) == Ok(Read(v, rest))
    decreases v, 2
  {
    hide Items, Fields, Spells, ParseLeaf, ParseArray, ParseMap, SkipWhitespace, Stop, Starts;
    BodyStarts(b, v, p);
    assert (b + rest)[0] == b[0];
    StartIsSolid(b + rest);
    if v.Array? {
      var inner := b[1..|b| - 1];
      assert (b + rest)[1..] == inner + ("]" + rest);
      ArrayReads(inner, v.items, rest, p);
    } else if v.Map? {
      var inner := b[1..|b| - 1];
      assert (b + rest)[1..] == inner + ("}" + rest);
      MapReads(inner, v.entries, rest, p);
    } else {
      SpelledIsRead(b, v, rest, p);
    }
  }

  lemma {:induction false} ArrayReads(inner: string, items: seq<OSD>, rest: string, p: Platform)
    requires Items(inner, items, p)
    ensures ParseArray(inner + ("]" + rest), p) == Ok(Read(Array(items), rest))
    decreases items, 3
  {
    hide ParseItems, SkipWhitespace, Items, IsWhitespace;
    var t := inner + ("]" + rest);
    if items == [] {
      EmptyInside(inner, "]" + rest, p);
      assert ("]" + rest)[1..] == rest;
    } else {
      FirstItem(inner, items, "]" + rest, p);
      NotationLayout.ParseSkips(t, [], [], p);
      ItemsReads(inner, items, [], rest, p);
      assert [] + items == items;
    }
  }

  lemma EmptyInside(inner: string, rest: string, p: Platform)
    requires (Items(inner, [], p) || Fields(inner, [], p)) && rest != "" && (rest[0] == ']' || rest[0] == '}')
    ensures SkipWhitespace(inner + rest) == rest
  {
    SkipGap(inner, rest);
  }

  /** What follows the opening bracket is not the closing one. */
  lemma FirstItem(inner: string, items: seq<OSD>, rest: string, p: Platform)
    requires items != [] && Items(inner, items, p)
    ensures var s := SkipWhitespace(inner + rest); s != "" && s[0] != ']'
  {
    hide SkipWhitespace, Body, Space, Doc, Items, ItemsAfter, StartsValue;
    var a, gap, u := ItemsParts(inner, items, p);
    var lead, b := DocParts(a, items[0], p);
    SkipToBody(lead, b, items[0], gap + u + rest, p);
    NotClosing();
    assert inner + rest == lead + b + (gap + u + rest);
  }

  lemma NotClosing()
    ensures !StartsValue(']') && !StartsValue('}')
  {
  }

  /** The end of a run of items, after one of them. */
  lemma AfterItem(u: string, close: char, rest: string)
    requires u == "" || u[0] == ','
    requires close == ']' || close == '}'
    ensures var w := u + ([close] + rest);
            && w != "" && Stop(w) && w[0] == (if u == "" then close else ',')
            && w[1..] == if u == "" then rest else u[1..] + ([close] + rest)
  {
  }

  lemma {:induction false} ItemsReads(t: string, items: seq<OSD>, before: seq<OSD>, rest: string, p: Platform)
    requires items != [] && Items(t, items, p)
    ensures ParseItems(t + ("]" + rest), before, p) == Ok(Read(before + items, rest))
    decreases items, 2
  {
    hide ParseItems, ParseValue, Doc, Items, Stop, IsWhitespace, Space, AllIn;
    var a, gap, u := ItemsParts(t, items, p);
    var v := items[0];
    var w := u + ("]" + rest);
    AfterItem(u, ']', rest);
    StopAfterSpace(gap, w);
    DocReads(a, v, gap + w, p);
    Reassociate(a, gap, u, "]" + rest);
    assert Space(gap) ==> AllIn(gap, IsWhitespace) by { SpaceIs(gap); }
    NotationLayout.ItemStep(a + (gap + w), v, gap, w, before, p);
    assert items == [v] + items[1..];
    if items[1..] == [] {
      assert before + [v] == before + items;
    } else {
      ItemsReads(u[1..], items[1..], before + [v], rest, p);
      Associative(before, [v], items[1..]);
    }
  }

  lemma Reassociate(a: string, b: string, c: string, d: string)
    ensures a + (b + c) + d == a + (b + (c + d))
  {
    Associative(a, b + c, d);
    Associative(b, c, d);
  }

  lemma SpaceIs(gap: string)
    ensures Space(gap) <==> AllIn(gap, IsWhitespace)
  {
  }

  lemma StopAfterSpace(gap: string, w: string)
    requires Space(gap) && w != "" && Stop(w)
    ensures Stop(gap + w)
  {
    NotationLayout.StopAfter(gap, w);
  }

  lemma {:induction false} MapReads(inner: string, entries: seq<Entry>, rest: string, p: Platform)
    requires Fields(inner, entries, p)
    ensures ParseMap(inner + ("}" + rest), p) == Ok(Read(Map(entries), rest))
    decreases entries, 3
  {
    hide ParseEntries, SkipWhitespace, Fields, IsWhitespace;
    var t := inner + ("}" + rest);
    if entries == [] {
      EmptyInside(inner, "}" + rest, p);
      assert ("}" + rest)[1..] == rest;
    } else {
      FirstField(inner, entries, "}" + rest, p);
      NotationLayout.ParseSkips(t, [], [], p);
      FieldsReads(inner, entries, [], rest, p);
      assert [] + entries == entries;
    }
  }

  /** A key after whitespace, and what follows it. */
  lemma SkipToKey(lead: string, k: string, key: string, rest: string)
    requires Space(lead) && SpellsKey(k, key)
    ensures TakeKey(SkipWhitespace(lead + (k + rest))) == Ok(Read(key, rest))
    ensures var s := SkipWhitespace(lead + (k + rest)); s != "" && s[0] != '}'
  {
    hide SkipWhitespace, TakeKey, SpellsKey, IsWhitespace;
    KeyReads(k, key, rest);
    KeyStarts(k, key);
    assert (k + rest)[0] == k[0];
    SkipGap(lead, k + rest);
  }

  lemma KeyStarts(k: string, key: string)
    requires SpellsKey(k, key)
    ensures k != "" && k[0] in {'"', '\'', 's'}
  {
    hide Delimited, Sized;
  }

  lemma FirstField(inner: string, entries: seq<Entry>, rest: string, p: Platform)
    requires entries != [] && Fields(inner, entries, p)
    ensures var s := SkipWhitespace(inner + rest); s != "" && s[0] != '}'
  {
    hide SkipWhitespace, Doc, Space, Field, Fields, FieldsAfter, SpellsKey, TakeKey;
    var f, gap, u := FieldsParts(inner, entries, p);
    var lead, key, g, d := FieldParts(f, entries[0], p);
    SkipToKey(lead, key, entries[0].key, g + (":" + d) + (gap + u) + rest);
    assert inner + rest == lead + (key + (g + (":" + d) + (gap + u) + rest));
  }

  /** A colon after whitespace. */
  lemma ColonReads(gap: string, t: string)
    requires Space(gap)
    ensures TakeColon(gap + (":" + t)) == Ok(t)
  {
    SkipGap(gap, ":" + t);
    assert (":" + t)[1..] == t;
  }

  /** One field and what separates it from the next, or ends the map. */
  lemma {:induction false} FieldReads(f: string, e: Entry, gap: string, w: string, before: seq<Entry>, p: Platform)
    requires Field(f, e, p) && Space(gap) && w != "" && Stop(w) && (w[0] == ',' || w[0] == '}')
    ensures w[0] == ',' ==> ParseEntries(f + (gap + w), before, p) == ParseEntries(w[1..], before + [e], p)
    ensures w[0] == '}' ==> ParseEntries(f + (gap + w), before, p) == Ok(Read(before + [e], w[1..]))
    decreases e, 1
  {
    hide ParseEntries, ParseValue, Doc, Field, Stop, IsWhitespace, AllIn, SkipWhitespace, SpellsKey, TakeKey, TakeColon,
      Space;
    var lead, key, g, d := FieldParts(f, e, p);
    var rest := gap + w;
    var afterKey := g + (":" + (d + rest));
    StopAfterSpace(gap, w);
    DocReads(d, e.value, rest, p);
    SkipToKey(lead, key, e.key, afterKey);
    ColonReads(g, d + rest);
    FieldText(lead, key, g, d, rest);
    assert AllIn(gap, IsWhitespace) by { SpaceIs(gap); }
    NotationLayout.EntryStep(f + rest, e.key, afterKey, d + rest, e.value, gap, w, before, p);
  }

  lemma FieldText(lead: string, key: string, gap: string, d: string, rest: string)
    ensures lead + (key + (gap + (":" + d))) + rest == lead + (key + (gap + (":" + (d + rest))))
  {
    Associative(":", d, rest);
    Associative(gap, ":" + d, rest);
    Associative(key, gap + (":" + d), rest);
    Associative(lead, key + (gap + (":" + d)), rest);
  }

  lemma {:induction false} FieldsReads(t: string, entries: seq<Entry>, before: seq<Entry>, rest: string, p: Platform)
    requires entries != [] && Fields(t, entries, p)
    ensures ParseEntries(t + ("}" + rest), before, p) == Ok(Read(before + entries, rest))
    decreases entries, 2
  {
    hide ParseEntries, Field, Fields, Stop, Space;
    var f, gap, u := FieldsParts(t, entries, p);
    var e := entries[0];
    var w := u + ("}" + rest);
    AfterItem(u, '}', rest);
    FieldReads(f, e, gap, w, before, p);
    Reassociate(f, gap, u, "}" + rest);
    assert entries == [e] + entries[1..];
    if entries[1..] == [] {
      assert before + [e] == before + entries;
    } else {
      FieldsReads(u[1..], entries[1..], before + [e], rest, p);
      Associative(before, [e], entries[1..]);
    }
  }

  // ---------- What is read was spelled ----------

  /** A text as the whitespace in front of it and the rest. */
  lemma SkippedText(s: string) returns (gap: string, t: string)
    ensures s == gap + t && Space(gap) && SkipWhitespace(s) == t
  {
    var i := SkippedIs(s);
    gap, t := s[..i], s[i..];
  }

  lemma {:induction false} ReadDoc(s: string, v: OSD, rest: string, p: Platform) returns (d: string)
    requires ParseValue(s, p) == Ok(Read(v, rest)) && p.readUuid("") == None
    ensures s == d + rest && d != "" && Doc(d, v, p)
    decreases |s|, 1
  {
    hide ParseLeaf, ParseArray, ParseMap, SkipWhitespace, Body, Doc, Space;
    var gap, t := SkippedText(s);
    var b := ReadBody(t, v, rest, p);
    d := gap + b;
    Associative(gap, b, rest);
    JoinDoc(gap, b, v, p);
  }

  /** A value read from its first character on. */
  lemma {:induction false} ReadBody(t: string, v: OSD, rest: string, p: Platform) returns (b: string)
    requires t != "" && p.readUuid("") == None
    requires Ok(Read(v, rest))
          == if t[0] == '[' then ParseArray(t[1..], p) else if t[0] == '{' then ParseMap(t[1..], p) else ParseLeaf(t, p)
    ensures t == b + rest && b != "" && Body(b, v, p)
    decreases |t|, 0
  {
    hide ParseLeaf, ParseArray, ParseMap, Items, Fields, Spells, Body;
    if t[0] == '[' {
      var inner := ReadArray(t[1..], v, rest, p);
      b := "[" + inner + "]";
      JoinArray(inner, v.items, p);
      assert t == "[" + t[1..] && b + rest == "[" + (inner + ("]" + rest));
    } else if t[0] == '{' {
      var inner := ReadMap(t[1..], v, rest, p);
      b := "{" + inner + "}";
      JoinMap(inner, v.entries, p);
      assert t == "{" + t[1..] && b + rest == "{" + (inner + ("}" + rest));
    } else {
      ReadIsSpelled(t, v, rest, p);
      b := t[..|t| - |rest|];
      LeafBody(b, v, p);
    }
  }

  lemma LeafBody(b: string, v: OSD, p: Platform)
    requires Leaf(v) && Spells(b, v, p)
    ensures Body(b, v, p)
  {
    hide Spells;
  }

  lemma {:induction false} ReadArray(u: string, v: OSD, rest: string, p: Platform) returns (inner: string)
    requires ParseArray(u, p) == Ok(Read(v, rest)) && p.readUuid("") == None
    ensures v.Array? && u == inner + ("]" + rest) && Items(inner, v.items, p)
    decreases |u|, 3
  {
    hide ParseItems, SkipWhitespace, Items, Space;
    var gap, t := SkippedText(u);
    if t != "" && t[0] == ']' {
      inner := gap;
      NoItems(gap, p);
      assert t == "]" + rest;
    } else {
      NotationLayout.ParseSkips(u, [], [], p);
      var items;
      inner, items := ReadItems(u, [], v.items, rest, p);
      assert [] + items == items;
    }
  }

  lemma NoItems(t: string, p: Platform)
    requires Space(t)
    ensures Items(t, [], p) && Fields(t, [], p)
  {
  }

  lemma {:induction false} ReadItems(s: string, before: seq<OSD>, r: seq<OSD>, rest: string, p: Platform)
    returns (t: string, items: seq<OSD>)
    requires ParseItems(s, before, p) == Ok(Read(r, rest)) && p.readUuid("") == None
    ensures r == before + items && items != [] && s == t + ("]" + rest) && Items(t, items, p)
    decreases |s|, 2
  {
    hide ParseValue, SkipWhitespace, Items, Space, Doc;
    NotationLayout.ParseSkips(s, [], [], p);
    var first := ParseValue(s, p).value;
    var a := ReadDoc(s, first.value, first.rest, p);
    var gap, w := SkippedText(first.rest);
    var u := "";
    if w[0] == ',' {
      var more, tail := ReadItems(w[1..], before + [first.value], r, rest, p);
      items := [first.value] + tail;
      Associative(before, [first.value], tail);
      u := "," + more;
      assert w == "," + w[1..] && u + ("]" + rest) == "," + (more + ("]" + rest)) && u[1..] == more;
      assert items[1..] == tail;
    } else {
      items := [first.value];
      assert w == u + ("]" + rest);
    }
    t := a + (gap + u);
    JoinItems(a, gap, u, items, p);
    Reassociate(a, gap, u, "]" + rest);
  }

  lemma {:induction false} ReadMap(u: string, v: OSD, rest: string, p: Platform) returns (inner: string)
    requires ParseMap(u, p) == Ok(Read(v, rest)) && p.readUuid("") == None
    ensures v.Map? && u == inner + ("}" + rest) && Fields(inner, v.entries, p)
    decreases |u|, 3
  {
    hide ParseEntries, SkipWhitespace, Fields, Space;
    var gap, t := SkippedText(u);
    if t != "" && t[0] == '}' {
      inner := gap;
      NoItems(gap, p);
      assert t == "}" + rest;
    } else {
      NotationLayout.ParseSkips(u, [], [], p);
      var entries;
      inner, entries := ReadFields(u, [], v.entries, rest, p);
      assert [] + entries == entries;
    }
  }

  lemma ReadKeyText(s: string, key: string, rest: string) returns (k: string)
    requires TakeKey(s) == Ok(Read(key, rest))
    ensures s == k + rest && k != "" && SpellsKey(k, key)
  {
    hide TakeKey, SpellsKey;
    ReadKey(s, key, rest);
    k := s[..|s| - |rest|];
  }

  lemma ReadColon(s: string, u: string) returns (gap: string)
    requires TakeColon(s) == Ok(u)
    ensures s == gap + (":" + u) && Space(gap)
  {
    var t;
    gap, t := SkippedText(s);
    assert t == ":" + t[1..];
  }

  /** A key, a colon and a value that were read. */
  lemma {:induction false} ReadField(s: string, key: string, afterKey: string, u: string, v: OSD, after: string,
                                     p: Platform) returns (f: string)
    requires TakeKey(SkipWhitespace(s)) == Ok(Read(key, afterKey)) && TakeColon(afterKey) == Ok(u)
    requires ParseValue(u, p) == Ok(Read(v, after)) && p.readUuid("") == None
    ensures s == f + after && f != "" && |u| < |s| && Field(f, Entry(key, v), p)
    decreases |u|, 2
  {
    hide ParseValue, SkipWhitespace, TakeKey, TakeColon, Space, Doc, SpellsKey, Field;
    var lead, t := SkippedText(s);
    var k := ReadKeyText(t, key, afterKey);
    var gap := ReadColon(afterKey, u);
    var d := ReadDoc(u, v, after, p);
    f := lead + (k + (gap + (":" + d)));
    FieldText(lead, k, gap, d, after);
    JoinField(lead, k, gap, d, Entry(key, v), p);
  }

  lemma {:induction false} ReadFields(s: string, before: seq<Entry>, r: seq<Entry>, rest: string, p: Platform)
    returns (t: string, entries: seq<Entry>)
    requires ParseEntries(s, before, p) == Ok(Read(r, rest)) && p.readUuid("") == None
    ensures r == before + entries && entries != [] && s == t + ("}" + rest) && Fields(t, entries, p)
    decreases |s|, 2
  {
    hide ParseValue, SkipWhitespace, TakeKey, TakeColon, Fields, Space, Field;
    var key := TakeKey(SkipWhitespace(s)).value;
    var u := TakeColon(key.rest).value;
    NotationLayout.ParseSkips(u, [], [], p);
    var first := ParseValue(u, p).value;
    var e := Entry(key.value, first.value);
    var f := ReadField(s, key.value, key.rest, u, first.value, first.rest, p);
    var gap, w := SkippedText(first.rest);
    var more := "";
    if w[0] == ',' {
      var fields, tail := ReadFields(w[1..], before + [e], r, rest, p);
      entries := [e] + tail;
      Associative(before, [e], tail);
      more := "," + fields;
      assert w == "," + w[1..] && more + ("}" + rest) == "," + (fields + ("}" + rest)) && more[1..] == fields;
      assert entries[1..] == tail;
    } else {
      entries := [e];
      assert w == more + ("}" + rest);
    }
    t := f + (gap + more);
    JoinFields(f, gap, more, entries, p);
    Reassociate(f, gap, more, "}" + rest);
  }

  // ---------- The main results ----------

  /** In front of anything that cannot extend a number or a word, a text is read as v exactly when the
      grammar says that it spells v. (The empty text is no UUID.) */
  lemma MeansExactly(d: string, v: OSD, rest: string, p: Platform)
    requires Stop(rest) && p.readUuid("") == None
    ensures Doc(d, v, p) <==> ParseValue(d + rest, p) == Ok(Read(v, rest))
  {
    hide Doc, ParseValue, Stop;
    if Doc(d, v, p) {
      DocReads(d, v, rest, p);
    }
    if ParseValue(d + rest, p) == Ok(Read(v, rest)) {
      var e := ReadDoc(d + rest, v, rest, p);
      SameFront(d, e, rest);
    }
  }

  lemma SameFront(d: string, e: string, rest: string)
    requires d + rest == e + rest
    ensures d == e
  {
    assert |d| == |e|;
    assert (d + rest)[..|d|] == d && (e + rest)[..|e|] == e;
  }

  /** A text spells at most one value. */
  lemma OneMeaning(d: string, v: OSD, w: OSD, p: Platform)
    requires Doc(d, v, p) && Doc(d, w, p)
    ensures v == w
  {
    hide Doc, ParseValue;
    DocReads(d, v, "", p);
    DocReads(d, w, "", p);
  }

  lemma DocHasNoHeader(d: string, v: OSD, rest: string, p: Platform)
    requires Doc(d, v, p)
    ensures var s := SkipWhitespace(d + rest); s != "" && StartsValue(s[0]) && !(HEADER <= s)
  {
    hide Doc, Body, SkipWhitespace, Space, Starts;
    var gap, b := DocParts(d, v, p);
    SkipToBody(gap, b, v, rest, p);
    assert HEADER[0] == '<' && !StartsValue('<') by { NoHeaderStart(); }
  }

  lemma NoHeaderStart()
    ensures !StartsValue('<')
  {
  }

  /** Whole documents, with or without the header: what is parsed is what the grammar says, whatever the
      spelling and the whitespace, repeated keys collapsed. */
  lemma DocumentParses(d: string, v: OSD, rest: string, p: Platform)
    requires Doc(d, v, p) && Stop(rest)
    ensures Parse(d + rest, p) == Ok(Collapse(v))
    ensures Parse(HEADER + ['\n'] + (d + rest), p) == Ok(Collapse(v))
  {
    hide Doc, ParseValue, SkipWhitespace, Stop, Collapse;
    var s := d + rest;
    DocReads(d, v, rest, p);
    DocHasNoHeader(d, v, rest, p);
    NotationLayout.HeaderDropsOne('\n', s);
    NotationLayout.SkipTwice(s);
    NotationLayout.ParseSkips(s, [], [], p);
  }

  /** And whatever is parsed without a header begins with such a document. */
  lemma ParsedIsDocument(data: string, p: Platform) returns (d: string, v: OSD, rest: string)
    requires Parse(data, p).Ok? && !(HEADER <= SkipWhitespace(data)) && p.readUuid("") == None
    ensures data == d + rest && Doc(d, v, p) && Parse(data, p) == Ok(Collapse(v))
  {
    hide Doc, ParseValue, SkipWhitespace, Collapse;
    NotationLayout.SkipTwice(data);
    NotationLayout.ParseSkips(data, [], [], p);
    var read := ParseValue(data, p).value;
    v, rest := read.value, read.rest;
    d := ReadDoc(data, v, rest, p);
  }

  /** Every layout of a printed value is one of its spellings, up to what doubles lose. */
  lemma LaidIsDocument(v: OSD, g: NotationLayout.Layout, path: seq<nat>, p: Platform)
    requires Faithful(p) && NotationLayout.Blank(g) && p.readUuid("") == None
    ensures Doc(NotationLayout.Laid(v, g, path, p), MapLeaves(v, Image()), p)
  {
    hide Doc, ParseValue, Faithful, NotationLayout.Laid, NotationLayout.Blank;
    var d := NotationLayout.Laid(v, g, path, p);
    NotationLayout.LaidRoundTrip(v, g, path, "", p);
    MeansExactly(d, MapLeaves(v, Image()), "", p);
  }

  /** Spellings the printer does not use. */
  lemma OtherSpellings(p: Platform)
    ensures forall t | t in Words(true) :: Parse(t, p) == Ok(Boolean(true))
    ensures forall t | t in Words(false) :: Parse(t, p) == Ok(Boolean(false))
  {
    hide Parse, Body;
    forall t: string, flag: bool | t in Words(flag)
      ensures Parse(t, p) == Ok(Boolean(flag))
    {
      LeafBody(t, Boolean(flag), p);
      JoinDoc("", t, Boolean(flag), p);
      assert "" + t == t && t + "" == t;
      DocumentParses(t, Boolean(flag), "", p);
    }
  }
}
