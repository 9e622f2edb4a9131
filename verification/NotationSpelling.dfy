/** The parser's token readers read exactly what the grammar spells. */
module NotationSpelling {
  import opened Bytes
  import opened Doubles
  import opened Osd
  import opened NotationCodec
  import opened NotationLaws
  import opened NotationGrammar
  import Utf8

  // ---------- Runs of characters ----------

  lemma {:induction false} SpanIs(s: string, p: char -> bool)
    ensures var n := Span(s, p); AllIn(s[..n], p) && (n < |s| ==> !p(s[n]))
  {
    if s == "" || !p(s[0]) {
    } else {
      SpanIs(s[1..], p);
      var n := Span(s[1..], p);
      assert s[..n + 1] == [s[0]] + s[1..][..n];
    }
  }

  /** Skipping whitespace leaves the text from its first other character on. */
  lemma SkipTo(s: string, i: nat)
    requires i < |s| && Space(s[..i]) && !IsWhitespace(s[i])
    ensures SkipWhitespace(s) == s[i..]
  {
    hide IsWhitespace;
    assert s == s[..i] + s[i..];
    SpanAll(s[..i], s[i..], IsWhitespace);
  }

  /** The first n characters, cut at j. */
  lemma Cut(s: string, j: nat, n: nat)
    requires j <= n <= |s|
    ensures s == s[..n] + s[n..] && s[..n] == s[..j] + s[j..n]
    ensures s[..n][j..] == s[j..][..n - j] == s[j..n] && s[..n][..j] == s[..j] && s[j..][n - j..] == s[n..]
    ensures j < n ==> s[..n][j] == s[j] == s[j..][0]
  {
  }

  // ---------- Numbers ----------

  lemma {:induction false} LeadingZero(x: string)
    requires AllDigits(x)
    ensures AllDigits(['0'] + x) && DigitsValue(['0'] + x) == DigitsValue(x)
  {
    if x == "" {
      assert ['0'][..0] == "";
      assert DigitsValue("") == 0;
    } else {
      var init := x[..|x| - 1];
      LeadingZero(init);
      assert (['0'] + x)[..|x|] == ['0'] + init;
    }
  }

  lemma {:induction false} NumeralWithReads(k: nat, n: nat)
    ensures var t := Repeated('0', k) + NatText(n); t != "" && AllDigits(t) && DigitsValue(t) == n
  {
    hide NatText, DigitsValue;
    if k == 0 {
      NatTextDigits(n);
      assert Repeated('0', 0) + NatText(n) == NatText(n);
    } else {
      NumeralWithReads(k - 1, n);
      var u := Repeated('0', k - 1) + NatText(n);
      LeadingZero(u);
      assert Repeated('0', k) + NatText(n) == ['0'] + u;
    }
  }

  lemma NumeralReads(t: string, n: nat)
    requires Numeral(t, n)
    ensures t != "" && AllDigits(t) && DigitsValue(t) == n
  {
    var k: nat :| NumeralWith(t, k, n);
    NumeralWithReads(k, n);
  }

  /** A number and one more digit. */
  lemma DigitMore(init: string, last: char)
    requires AllDigits(init) && IsDigit(last)
    ensures AllDigits(init + [last])
    ensures DigitsValue(init + [last]) == 10 * DigitsValue(init) + (last as int - '0' as int)
  {
    assert (init + [last])[..|init|] == init;
  }

  lemma NatTextMore(n: nat, d: nat)
    requires d < 10
    ensures n > 0 ==> NatText(10 * n + d) == NatText(n) + [('0' as int + d) as char]
    ensures NatText(d) == [('0' as int + d) as char]
  {
  }

  lemma {:induction false} NoLeadingZero(t: string)
    requires t != "" && AllDigits(t) && t[0] != '0'
    ensures DigitsValue(t) >= 1 && t == NatText(DigitsValue(t))
  {
    hide NatText, DigitsValue;
    var init, last := t[..|t| - 1], t[|t| - 1];
    assert last in t && t[0] in t && forall c | c in init :: c in t;
    assert t == init + [last];
    var d := last as int - '0' as int;
    DigitMore(init, last);
    NatTextMore(DigitsValue(init), d);
    if init == "" {
      assert DigitsValue("") == 0 by { SingleZero(); }
      assert t == [last];
    } else {
      NoLeadingZero(init);
    }
  }

  lemma Unpadded(t: string, n: nat)
    requires t == NatText(n)
    ensures Numeral(t, n)
  {
    assert Repeated('0', 0) + NatText(n) == NatText(n);
    assert NumeralWith(t, 0, n);
  }

  lemma PaddedMore(u: string, n: nat)
    requires Numeral(u, n)
    ensures Numeral(['0'] + u, n)
  {
    var k: nat :| NumeralWith(u, k, n);
    assert ['0'] + u == Repeated('0', k + 1) + NatText(n);
    assert NumeralWith(['0'] + u, k + 1, n);
  }

  lemma SingleZero()
    ensures DigitsValue("") == 0 == DigitsValue("0") && NatText(0) == "0"
  {
    assert "0"[..0] == "" && DigitsValue("") == 0;
  }

  lemma {:induction false} DigitsAreNumeral(t: string)
    requires t != "" && AllDigits(t)
    ensures Numeral(t, DigitsValue(t))
  {
    hide Numeral, NatText, DigitsValue;
    if t[0] != '0' {
      NoLeadingZero(t);
      Unpadded(t, DigitsValue(t));
    } else if |t| == 1 {
      assert t == "0";
      SingleZero();
      Unpadded(t, 0);
    } else {
      var u := t[1..];
      assert forall c | c in u :: c in t;
      DigitsAreNumeral(u);
      LeadingZero(u);
      assert t == ['0'] + u;
      PaddedMore(u, DigitsValue(u));
    }
  }

  lemma NumeralExactly(t: string, n: nat)
    ensures Numeral(t, n) <==> t != "" && AllDigits(t) && DigitsValue(t) == n
  {
    if Numeral(t, n) {
      NumeralReads(t, n);
    }
    if t != "" && AllDigits(t) {
      DigitsAreNumeral(t);
    }
  }

  lemma FirstIsDigit(t: string)
    requires t != "" && AllDigits(t)
    ensures IsDigit(t[0])
  {
    assert t[0] in t;
  }

  /** Signed numerals are exactly what reads as a 32-bit integer. */
  lemma SignedExactly(t: string, v: i32)
    ensures SignedNumeral(t, v) <==> ReadI32(t) == Some(v)
  {
    hide Numeral, DigitsValue, AllDigits;
    var n: nat := if v < 0 then -(v as int) else v;
    if t != "" {
      NumeralExactly(t, n);
      NumeralExactly(t[1..], n);
      if AllDigits(t) {
        FirstIsDigit(t);
      }
    } else {
      NumeralExactly(t, n);
    }
  }

  lemma SizeExactly(t: string)
    ensures SizeText(t) <==> IsSize(t)
  {
    hide Numeral, DigitsValue, AllDigits;
    if SizeText(t) {
      var n: nat :| n < 0x1_0000_0000_0000_0000 && (Numeral(t, n) || (Tagged(t, '+') && Numeral(t[1..], n)));
      NumeralExactly(t, n);
      if t != "" {
        NumeralExactly(t[1..], n);
        if AllDigits(t) {
          FirstIsDigit(t);
        }
      }
    }
    if IsSize(t) {
      NumeralExactly(Unsigned(t), DigitsValue(Unsigned(t)));
    }
  }

  // ---------- Strings ----------

  lemma {:induction false} StandsReads(body: string, delim: char, text: string, rest: string, taken: string)
    requires Stands(body, delim, text) && delim != '\\'
    ensures TakeDelimited(body + [delim] + rest, delim, taken) == Ok(Read(taken + text, rest))
    decreases |body|
  {
    var s := body + [delim] + rest;
    if body == "" {
      assert s[1..] == rest && s[0] == delim;
      assert taken + "" == taken;
    } else {
      var n := if body[0] == '\\' then 2 else 1;
      var m := Meaning(body[..n], delim).value;
      StandsReads(body[n..], delim, text[|m|..], rest, taken + m);
      assert s[n..] == body[n..] + [delim] + rest && s[..n] == body[..n];
      assert n == 2 ==> s[1] == body[1];
      PieceReads(s, n, delim, taken);
      assert taken + m + text[|m|..] == taken + text;
    }
  }

  /** One piece read. */
  lemma PieceReads(s: string, n: nat, delim: char, taken: string)
    requires s != "" && n == (if s[0] == '\\' then 2 else 1) && n <= |s|
    requires Meaning(s[..n], delim).Some?
    ensures TakeDelimited(s, delim, taken) == TakeDelimited(s[n..], delim, taken + Meaning(s[..n], delim).value)
  {
    if n == 1 {
      assert s[..n] == [s[0]];
    } else {
      assert s[..n][1] == s[1];
      assert Meaning(s[..n], delim).value == Escape(s[1], delim);
    }
  }

  lemma ReadHasMeaning(s: string, n: nat, delim: char, taken: string)
    requires s != "" && n == (if s[0] == '\\' then 2 else 1) && TakeDelimited(s, delim, taken).Ok?
    requires s[0] == '\\' || s[0] != delim
    ensures n <= |s| && Meaning(s[..n], delim).Some?
  {
  }

  lemma ReadClose(s: string, delim: char, taken: string)
    requires s != "" && s[0] != '\\' && s[0] == delim
    ensures TakeDelimited(s, delim, taken) == Ok(Read(taken, s[1..]))
  {
  }

  lemma ReadsNothing(delim: char, taken: string)
    ensures TakeDelimited("", delim, taken).Err?
  {
  }

  lemma NothingStands(delim: char)
    ensures Stands("", delim, "")
  {
  }

  lemma StandsJoin(body: string, n: nat, delim: char, m: string, tail: string)
    requires body != "" && n == (if body[0] == '\\' then 2 else 1) && n <= |body|
    requires Meaning(body[..n], delim) == Some(m) && Stands(body[n..], delim, tail)
    ensures Stands(body, delim, m + tail)
  {
    assert (m + tail)[|m|..] == tail;
  }

  /** What was read before the closing delimiter stands for the text read. */
  lemma {:induction false} ReadStands(s: string, delim: char, taken: string, r: string, rest: string)
    returns (text: string)
    requires TakeDelimited(s, delim, taken) == Ok(Read(r, rest))
    ensures delim != '\\' && r == taken + text && |rest| < |s|
    ensures var n := |s| - |rest| - 1; s[n] == delim && s[n + 1..] == rest && Stands(s[..n], delim, text)
    decreases |s|
  {
    hide TakeDelimited, Meaning, Stands;
    if s == "" {
      ReadsNothing(delim, taken);
      text := "";
    } else if s[0] != '\\' && s[0] == delim {
      ReadClose(s, delim, taken);
      text := "";
      assert taken + "" == taken && s[..0] == "";
      NothingStands(delim);
    } else {
      var n := if s[0] == '\\' then 2 else 1;
      ReadHasMeaning(s, n, delim, taken);
      PieceReads(s, n, delim, taken);
      var m := Meaning(s[..n], delim).value;
      var tail := ReadStands(s[n..], delim, taken + m, r, rest);
      text := m + tail;
      assert taken + m + tail == taken + text;
      var k := |s| - |rest| - 1;
      Cut(s, n, k);
      Cut(s, n, k + 1);
      StandsJoin(s[..k], n, delim, m, tail);
    }
  }

  lemma DelimitedReads(q: string, text: string, rest: string)
    requires Delimited(q, text)
    ensures TakeString(q + rest) == Ok(Read(text, rest))
  {
    hide TakeDelimited, Stands;
    var body := q[1..|q| - 1];
    assert (q + rest)[1..] == body + [q[0]] + rest;
    StandsReads(body, q[0], text, rest, "");
    assert "" + text == text;
  }

  lemma ReadDelimited(s: string, text: string, rest: string)
    requires TakeString(s) == Ok(Read(text, rest))
    ensures |rest| < |s| && s == s[..|s| - |rest|] + rest && Delimited(s[..|s| - |rest|], text)
  {
    hide TakeDelimited, Stands;
    var r := ReadStands(s[1..], s[0], "", text, rest);
    assert "" + r == r;
    var n := |s| - |rest|;
    assert s[1..][n - 2] == s[n - 1] && s[1..][n - 1..] == s[n..];
    assert s[..n][1..n - 1] == s[1..][..n - 2];
  }

  lemma SpacedReads(t: string, text: string, rest: string)
    requires Spaced(t, text)
    ensures TakeString(SkipWhitespace(t + rest)) == Ok(Read(text, rest))
  {
    hide TakeString, SkipWhitespace, Delimited, IsWhitespace, Space;
    var i: nat :| SpacedAt(t, i, text);
    assert (t + rest)[..i] == t[..i] && (t + rest)[i..] == t[i..] + rest;
    SkipTo(t + rest, i);
    DelimitedReads(t[i..], text, rest);
  }

  lemma SkippedIs(s: string) returns (i: nat)
    ensures i <= |s| && Space(s[..i]) && (i < |s| ==> !IsWhitespace(s[i])) && SkipWhitespace(s) == s[i..]
  {
    hide IsWhitespace;
    SpanIs(s, IsWhitespace);
    i := Span(s, IsWhitespace);
  }

  lemma ReadSpaced(s: string, text: string, rest: string)
    requires TakeString(SkipWhitespace(s)) == Ok(Read(text, rest))
    ensures |rest| < |s| && s == s[..|s| - |rest|] + rest && Spaced(s[..|s| - |rest|], text)
  {
    hide TakeString, SkipWhitespace, Delimited, IsWhitespace, Space;
    var i := SkippedIs(s);
    ReadDelimited(s[i..], text, rest);
    var n := |s| - |rest|;
    Cut(s, i, n);
    assert s[n..] == rest by { assert s[i..][n - i..] == rest; }
    assert SpacedAt(s[..n], i, text);
  }

  /** The size in front of a string, and the string after it. */
  lemma SizedReads(t: string, text: string, rest: string, j: nat)
    requires SizedAt(t, j, text)
    ensures Span(t + rest, IsNumberChar) == j && (t + rest)[..j] == t[..j]
    ensures TakeString(SkipWhitespace((t + rest)[j..])) == Ok(Read(text, rest))
  {
    hide TakeString, SkipWhitespace, Spaced, IsNumberChar;
    assert t + rest == t[..j] + (t[j..] + rest);
    SpanAll(t[..j], t[j..] + rest, IsNumberChar);
    SpacedReads(t[j..], text, rest);
    assert (t + rest)[j..] == t[j..] + rest;
  }

  lemma ReadSizedAt(s: string, j: nat, text: string, rest: string)
    requires j <= |s| && AllIn(s[..j], IsNumberChar) && (j < |s| ==> !IsNumberChar(s[j]))
    requires TakeString(SkipWhitespace(s[j..])) == Ok(Read(text, rest))
    ensures j < |s| - |rest| && s[|s| - |rest|..] == rest && SizedAt(s[..|s| - |rest|], j, text)
  {
    hide TakeString, SkipWhitespace, Spaced, IsNumberChar, AllIn;
    ReadSpaced(s[j..], text, rest);
    var n := |s| - |rest|;
    Cut(s, j, n);
    assert s[j..][n - j..] == rest;
  }

  lemma NumberSpan(s: string) returns (j: nat)
    ensures j == Span(s, IsNumberChar) <= |s| && AllIn(s[..j], IsNumberChar) && (j < |s| ==> !IsNumberChar(s[j]))
  {
    j := Span(s, IsNumberChar);
    SpanIs(s, IsNumberChar);
  }
}
