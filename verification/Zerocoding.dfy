/** LLUDP zero coding: a run of zero bytes travels as a zero byte and a count of 1 to 255. */
module Zerocoding {
  import opened Bytes

  const HEADER_SIZE: nat := 6
  const ZERO_CODE_FLAG: byte := 0x80

  datatype ZerocodeError = MissingCount

  function Zeros(n: nat): (z: seq<byte>)
    ensures |z| == n
    ensures forall i | 0 <= i < n :: z[i] == 0
  {
    seq(n, _ => 0)
  }

  /** r with `front` put before its value. */
  function Prepend(front: seq<byte>, r: Result<seq<byte>, ZerocodeError>): Result<seq<byte>, ZerocodeError> {
    match r
    case Ok(t) => Ok(front + t)
    case Err(e) => Err(e)
  }

  /** The body a zero-coded string stands for, or the error for a zero byte at the very end. */
  function Expand(s: seq<byte>): Result<seq<byte>, ZerocodeError> {
    if s == [] then Ok([])
    else if s[0] != 0 then Prepend([s[0]], Expand(s[1..]))
    else if |s| == 1 then Err(MissingCount)
    else Prepend(Zeros(s[1]), Expand(s[2..]))
  }

  lemma PrependNothing(r: Result<seq<byte>, ZerocodeError>)
    ensures Prepend([], r) == r
  {
    assert r.Ok? ==> [] + r.value == r.value;
  }

  lemma PrependTwice(a: seq<byte>, b: seq<byte>, r: Result<seq<byte>, ZerocodeError>)
    ensures Prepend(a, Prepend(b, r)) == Prepend(a + b, r)
  {
    assert r.Ok? ==> a + (b + r.value) == a + b + r.value;
  }

  method ExpandZerocoded(data: ByteBuffer) returns (r: Result<seq<byte>, ZerocodeError>)
    modifies data
    ensures r == Expand(old(data.data))
    ensures data.data == []
  {
    var output: seq<byte> := [];
    PrependNothing(Expand(data.data));
    while data.data != []
      invariant Expand(old(data.data)) == Prepend(output, Expand(data.data))
      decreases |data.data|
    {
      ghost var before, sofar := data.data, output;
      var b := data.GetU8();
      assert before[0] == b && before[1..] == data.data;
      if b == 0 {
        if data.data == [] {
          return Err(MissingCount);
        }
        var count := data.GetU8();
        assert before[1] == count && before[2..] == data.data;
        output := output + Zeros(count);
      } else {
        output := output + [b];
      }
      PrependTwice(sofar, if b == 0 then Zeros(before[1]) else [b], Expand(data.data));
    }
    assert Expand(data.data) == Ok([]);
    assert output + [] == output;
    return Ok(output);
  }

  /** What the encoder still has to write for `body` when `z` zeros of the current run are pending
      (the zero byte that opens the run is already out once z > 0). */
  function EncodeFrom(z: nat, body: seq<byte>): seq<byte>
    requires z < 255
    decreases body
  {
    if body == [] then
      if z == 0 then [] else [z]
    else if body[0] == 0 then
      if z == 0 then [0] + EncodeFrom(1, body[1..])
      else if z == 254 then [255] + EncodeFrom(0, body[1..])
      else EncodeFrom(z + 1, body[1..])
    else
      (if z == 0 then [] else [z]) + [body[0]] + EncodeFrom(0, body[1..])
  }

  function EncodeBody(body: seq<byte>): seq<byte> {
    EncodeFrom(0, body)
  }

  /** The datagram the encoder returns: shorter and flagged, or the input untouched. */
  function Encoded(data: seq<byte>): seq<byte> {
    if |data| <= HEADER_SIZE then data
    else
      var body := EncodeBody(data[HEADER_SIZE..]);
      if HEADER_SIZE + |body| < |data|
      then [SetBit(data[0], ZERO_CODE_FLAG)] + data[1..HEADER_SIZE] + body
      else data
  }

  /** What one byte makes the encoder write when `z` zeros are pending. */
  ghost function Emitted(z: nat, b: byte): seq<byte> {
    if b == 0 then (if z == 0 then [0] else if z == 254 then [255] else [])
    else (if z == 0 then [] else [z % 256]) + [b]
  }

  /** The zeros pending after one byte. */
  ghost function Pending(z: nat, b: byte): (y: nat)
    ensures z < 255 ==> y < 255
  {
    if b == 0 && z < 254 then z + 1 else 0
  }

  lemma EncodeStep(out: seq<byte>, z: nat, data: seq<byte>, i: nat)
    requires z < 255 && i < |data|
    ensures out + EncodeFrom(z, data[i..])
         == out + Emitted(z, data[i]) + EncodeFrom(Pending(z, data[i]), data[i + 1..])
  {
    assert data[i..][1..] == data[i + 1..];
    assert EncodeFrom(z, data[i..]) == Emitted(z, data[i]) + EncodeFrom(Pending(z, data[i]), data[i + 1..]);
  }

  lemma EncodeEnd(out: seq<byte>, z: nat)
    requires z < 255
    ensures out + EncodeFrom(z, []) == if z == 0 then out else out + [z]
  {
  }

  method ZeroEncode(data: seq<byte>) returns (encoded: seq<byte>)
    ensures encoded == Encoded(data)
  {
    hide EncodeFrom;
    if |data| <= HEADER_SIZE {
      return data;
    }
    encoded := data[..HEADER_SIZE];
    var zeroCount := 0;
    for i := HEADER_SIZE to |data|
      invariant 0 <= zeroCount < 255
      invariant encoded + EncodeFrom(zeroCount, data[i..]) == data[..HEADER_SIZE] + EncodeBody(data[HEADER_SIZE..])
    {
      ghost var z, out := zeroCount, encoded;
      EncodeStep(encoded, zeroCount, data, i);
      if data[i] == 0 {
        if zeroCount == 0 {
          encoded := encoded + [0];
          zeroCount := 1;
        } else if zeroCount == 254 {
          encoded := encoded + [255];
          zeroCount := 0;
        } else {
          zeroCount := zeroCount + 1;
        }
      } else {
        if zeroCount != 0 {
          encoded := encoded + [zeroCount];
          zeroCount := 0;
        }
        encoded := encoded + [data[i]];
      }
      assert encoded == out + Emitted(z, data[i]);
    }
    EncodeEnd(encoded, zeroCount);
    assert data[|data|..] == [];
    if zeroCount != 0 {
      encoded := encoded + [zeroCount];
    }
    assert encoded == data[..HEADER_SIZE] + EncodeBody(data[HEADER_SIZE..]);
    if |encoded| < |data| {
      encoded := encoded[0 := SetBit(encoded[0], ZERO_CODE_FLAG)];
    } else {
      encoded := data;
    }
  }

  // ---------- Round trip ----------

  /** The zero byte that opened the pending run, if any. */
  function Opening(z: nat): seq<byte> {
    if z == 0 then [] else [0]
  }

  /** Everything the encoder writes from the start of the pending run on. */
  function EncodeRunFrom(z: nat, body: seq<byte>): seq<byte>
    requires z < 255
  {
    Opening(z) + EncodeFrom(z, body)
  }

  /** A zero joins the pending run, and a run of 255 is closed at once. */
  lemma EncodeRunZero(z: nat, body: seq<byte>)
    requires z < 255 && body != [] && body[0] == 0
    ensures z < 254 ==> EncodeRunFrom(z, body) == EncodeRunFrom(z + 1, body[1..])
    ensures z == 254 ==> EncodeRunFrom(z, body) == [0, 255] + EncodeRunFrom(0, body[1..])
  {
  }

  /** Any other byte closes the pending run with its count, and then stands for itself. */
  lemma EncodeRunLiteral(z: nat, body: seq<byte>)
    requires z < 255 && body != [] && body[0] != 0
    ensures z == 0 ==> EncodeRunFrom(z, body) == [body[0]] + EncodeRunFrom(0, body[1..])
    ensures z > 0 ==> EncodeRunFrom(z, body) == [0, z] + EncodeRunFrom(0, body)
  {
  }

  lemma ExpandLiteral(b: byte, s: seq<byte>)
    requires b != 0
    ensures Expand([b] + s) == Prepend([b], Expand(s))
  {
    assert ([b] + s)[1..] == s;
  }

  lemma ExpandPair(n: byte, s: seq<byte>)
    ensures Expand([0, n] + s) == Prepend(Zeros(n), Expand(s))
  {
    assert ([0, n] + s)[2..] == s;
  }

  lemma ZerosGrow(z: nat, body: seq<byte>)
    requires body != [] && body[0] == 0
    ensures Zeros(z + 1) + body[1..] == Zeros(z) + body
  {
    assert body == [0] + body[1..];
  }

  lemma NoZeros(body: seq<byte>)
    ensures Zeros(0) + body == body
  {
  }

  /** Expanding an encoder output gives back the body, with the pending zeros in front. */
  lemma {:induction false} ExpandEncodeFrom(z: nat, body: seq<byte>)
    requires z < 255
    ensures Expand(EncodeRunFrom(z, body)) == Ok(Zeros(z) + body)
    decreases body, z
  {
    if body == [] {
      ExpandLastRun(z);
    } else if body[0] == 0 {
      EncodeRunZero(z, body);
      ZerosGrow(z, body);
      if z < 254 {
        ExpandEncodeFrom(z + 1, body[1..]);
      } else {
        ExpandEncodeFrom(0, body[1..]);
        NoZeros(body[1..]);
        ExpandPair(255, EncodeRunFrom(0, body[1..]));
      }
    } else {
      EncodeRunLiteral(z, body);
      NoZeros(body);
      if z == 0 {
        ExpandEncodeFrom(0, body[1..]);
        NoZeros(body[1..]);
        ExpandLiteral(body[0], EncodeRunFrom(0, body[1..]));
        assert [body[0]] + body[1..] == body;
      } else {
        ExpandEncodeFrom(0, body);
        ExpandPair(z, EncodeRunFrom(0, body));
      }
    }
  }

  lemma ExpandLastRun(z: nat)
    requires z < 255
    ensures Expand(EncodeRunFrom(z, [])) == Ok(Zeros(z) + [])
  {
    if z > 0 {
      ExpandPair(z, []);
      assert EncodeRunFrom(z, []) == [0, z] + [];
    }
  }

  lemma RoundTrip(body: seq<byte>)
    ensures Expand(EncodeBody(body)) == Ok(body)
  {
    ExpandEncodeFrom(0, body);
    assert EncodeRunFrom(0, body) == EncodeBody(body);
    assert Zeros(0) + body == body;
  }

  // ---------- Canonical forms ----------

  /** No pair counts zero zeros, no zero byte ends the string, and a pair that is not full
      (count below 255) is not followed by another pair. */
  predicate Canonical(s: seq<byte>) {
    if s == [] then true
    else if s[0] != 0 then Canonical(s[1..])
    else |s| >= 2 && s[1] != 0 && Canonical(s[2..])
         && (s[1] < 255 && |s| > 2 ==> s[2] != 0)
  }

  lemma {:induction false} EncodeIsCanonicalFrom(z: nat, body: seq<byte>)
    requires z < 255
    ensures Canonical(EncodeRunFrom(z, body))
    decreases body, z
  {
    if body == [] {
      if z > 0 {
        assert EncodeRunFrom(z, body) == [0, z] && [0, z][2..] == [];
      }
    } else {
      var rest := if body[0] != 0 && z > 0 then body else body[1..];
      if body[0] == 0 {
        EncodeRunZero(z, body);
      } else {
        EncodeRunLiteral(z, body);
      }
      if body[0] == 0 && z < 254 {
        EncodeIsCanonicalFrom(z + 1, body[1..]);
      } else {
        EncodeIsCanonicalFrom(0, rest);
        var s := EncodeRunFrom(z, body);
        assert s[|s| - |EncodeRunFrom(0, rest)|..] == EncodeRunFrom(0, rest);
      }
    }
  }

  /** The encoder skips ahead over zeros of a run that is not yet full. */
  lemma {:induction false} EncodeRun(z: nat, n: nat, b: seq<byte>)
    requires z >= 1 && z + n < 255
    ensures EncodeFrom(z, Zeros(n) + b) == EncodeFrom(z + n, b)
    decreases n
  {
    if n == 0 {
      assert Zeros(0) + b == b;
    } else {
      assert (Zeros(n) + b)[1..] == Zeros(n - 1) + b;
      EncodeRun(z + 1, n - 1, b);
    }
  }

  /** A run of n zeros in front of b, as the encoder sees it. */
  lemma EncodeZeros(n: nat, b: seq<byte>)
    requires 1 <= n <= 255
    ensures n < 255 ==> EncodeBody(Zeros(n) + b) == [0] + EncodeFrom(n, b)
    ensures n == 255 ==> EncodeBody(Zeros(n) + b) == [0, 255] + EncodeBody(b)
  {
    assert (Zeros(n) + b)[1..] == Zeros(n - 1) + b;
    if n < 255 {
      EncodeRun(1, n - 1, b);
    } else {
      assert Zeros(254) + b == Zeros(253) + (Zeros(1) + b);
      EncodeRun(1, 253, Zeros(1) + b);
      assert (Zeros(1) + b)[1..] == b;
    }
  }

  /** A pending run that the body does not go on with is closed by its count. */
  lemma EncodeClosedRun(n: nat, t: seq<byte>)
    requires 0 < n < 255 && (t == [] || t[0] != 0)
    ensures EncodeFrom(n, t) == [n] + EncodeBody(t)
  {
    assert [n] + [] == [n];
  }

  lemma EncodeLiteral(b: byte, t: seq<byte>)
    requires b != 0
    ensures EncodeBody([b] + t) == [b] + EncodeBody(t)
  {
    assert ([b] + t)[1..] == t;
    assert [] + [b] + EncodeBody(t) == [b] + EncodeBody(t);
  }

  /** A run of n zeros that b does not go on with becomes one pair. */
  lemma EncodePair(n: byte, b: seq<byte>)
    requires n > 0 && (n < 255 ==> b == [] || b[0] != 0)
    ensures EncodeBody(Zeros(n) + b) == [0, n] + EncodeBody(b)
  {
    hide EncodeFrom;
    EncodeZeros(n, b);
    if n < 255 {
      EncodeClosedRun(n, b);
      assert [0] + ([n] + EncodeBody(b)) == [0, n] + EncodeBody(b);
    }
  }

  lemma ExpandFirst(s: seq<byte>)
    requires s != [] && s[0] != 0 && Expand(s).Ok?
    ensures Expand(s).value != [] && Expand(s).value[0] == s[0]
  {
  }

  lemma {:induction false} CanonicalRoundTrip(s: seq<byte>)
    requires Canonical(s)
    ensures Expand(s).Ok? && EncodeBody(Expand(s).value) == s
  {
    hide EncodeBody;
    if s == [] {
      assert EncodeBody([]) == [] by { EncodeNothing(); }
    } else if s[0] != 0 {
      CanonicalRoundTrip(s[1..]);
      EncodeLiteral(s[0], Expand(s[1..]).value);
      assert s == [s[0]] + s[1..];
    } else {
      var n, t := s[1], s[2..];
      CanonicalRoundTrip(t);
      if t == [] {
        assert Expand(t) == Ok([]);
      } else if t[0] != 0 {
        ExpandFirst(t);
      }
      EncodePair(n, Expand(t).value);
      assert s == [0, n] + t;
    }
  }

  lemma EncodeNothing()
    ensures EncodeBody([]) == []
  {
  }

  /** The canonical strings are exactly the encoder's outputs: encoding is a bijection onto them. */
  lemma CanonicalExactlyEncoded(s: seq<byte>)
    ensures Canonical(s) <==> exists body :: EncodeBody(body) == s
    ensures Canonical(s) <==> Expand(s).Ok? && EncodeBody(Expand(s).value) == s
  {
    if Canonical(s) {
      CanonicalRoundTrip(s);
    }
    forall body | EncodeBody(body) == s
      ensures Canonical(s)
    {
      EncodeIsCanonicalFrom(0, body);
      assert EncodeRunFrom(0, body) == s;
    }
  }

  // ---------- Optimality ----------

  /** Bytes still to pay for `body` with `z` zeros pending, counting the zero byte that opened the run. */
  function Cost(z: nat, body: seq<byte>): nat
    requires z < 255
  {
    |EncodeFrom(z, body)| + (if z == 0 then 0 else 1)
  }

  /** Pending zeros never help, and never cost more than one pair. */
  lemma {:induction false} CostOfPending(x: nat, y: nat, body: seq<byte>)
    requires x <= y < 255
    ensures Cost(x, body) <= Cost(y, body) <= Cost(x, body) + 2
    decreases body
  {
    if body != [] && x < y {
      var t := body[1..];
      if body[0] == 0 {
        if y == 254 {
          CostOfPending(0, x + 1, t);
        } else {
          CostOfPending(x + 1, y + 1, t);
        }
      }
    }
  }

  /** Putting n zeros in front of a body costs at most one more pair. */
  lemma PrependZeros(n: nat, b: seq<byte>)
    requires n <= 255
    ensures |EncodeBody(Zeros(n) + b)| <= |EncodeBody(b)| + 2
  {
    if n == 0 {
      assert Zeros(0) + b == b;
    } else {
      EncodeZeros(n, b);
      if n < 255 {
        CostOfPending(0, n, b);
      }
    }
  }

  /** No string that expands to `body` is shorter than the encoder's. */
  lemma {:induction false} Optimal(s: seq<byte>, body: seq<byte>)
    requires Expand(s) == Ok(body)
    ensures |EncodeBody(body)| <= |s|
  {
    if s == [] {
    } else if s[0] != 0 {
      var t := Expand(s[1..]).value;
      Optimal(s[1..], t);
      assert body[1..] == t;
    } else {
      var t := Expand(s[2..]).value;
      Optimal(s[2..], t);
      PrependZeros(s[1], t);
    }
  }

  /** The flagged form is chosen exactly when some zero-coded form of the body saves space. */
  lemma FlaggedExactlyWhenSmaller(data: seq<byte>)
    requires |data| > HEADER_SIZE
    ensures |Encoded(data)| < |data| <==>
            exists s :: Expand(s) == Ok(data[HEADER_SIZE..]) && |s| < |data| - HEADER_SIZE
    ensures |Encoded(data)| <= |data|
    ensures |Encoded(data)| < |data| ==> HasBit(Encoded(data)[0], ZERO_CODE_FLAG)
    ensures |Encoded(data)| == |data| ==> Encoded(data) == data
  {
    var body := data[HEADER_SIZE..];
    RoundTrip(body);
    forall s | Expand(s) == Ok(body) && |s| < |body|
      ensures |Encoded(data)| < |data|
    {
      Optimal(s, body);
    }
  }

  // ---------- Strings that expand to themselves ----------

  /** A pair whose zeros lie in front of something that repeats the pair's count covers no more than
      what stood before the count. */
  lemma PairReach(w: seq<byte>, t: seq<byte>, u: seq<byte>)
    requires |t| >= 2 && t[1] > 0 && w + t == Zeros(t[1]) + u
    ensures t[1] <= |w| + 1
  {
    assert (w + t)[|w| + 1] == t[1];
  }

  /** Expansion cannot push a string back behind something else. */
  lemma {:induction false} NeverDelayed(w: seq<byte>, t: seq<byte>)
    requires w != []
    ensures Expand(t) != Ok(w + t)
    decreases |t|
  {
    if t != [] && Expand(t) == Ok(w + t) {
      var n := if t[0] != 0 then 1 else t[1];
      var k := if t[0] != 0 then 1 else 2;
      var tail := t[k..];
      var u := Expand(tail).value;
      var front := if t[0] != 0 then [t[0]] else Zeros(n);
      assert w + t == front + u;
      assert u == (w + t)[n..];
      if t[0] == 0 && n > 0 {
        PairReach(w, t, u);
      }
      assert (w + t)[n..] == (w + t[..k])[n..] + tail;
      NeverDelayed((w + t[..k])[n..], tail);
    }
  }

  /** A string expands to itself exactly when it has no zero byte. */
  lemma {:induction false} FixedExactlyWithoutZeros(s: seq<byte>)
    ensures Expand(s) == Ok(s) <==> 0 !in s
    decreases |s|
  {
    if s == [] {
    } else if s[0] != 0 {
      FixedExactlyWithoutZeros(s[1..]);
      assert s == [s[0]] + s[1..];
      assert Expand(s).Ok? ==> Expand(s).value[1..] == Expand(s[1..]).value;
    } else if |s| > 1 && Expand(s).Ok? {
      PairNotFixed(s);
    }
  }

  lemma PairNotFixed(s: seq<byte>)
    requires |s| > 1 && s[0] == 0 && Expand(s[2..]).Ok?
    ensures Zeros(s[1]) + Expand(s[2..]).value != s
  {
    var n, t := s[1], s[2..];
    var u := Expand(t).value;
    if Zeros(n) + u == s {
      hide Expand;
      assert u == s[n..];
      if n > 0 {
        assert [] + s == s;
        PairReach([], s, u);
      }
      assert s[n..] == s[n..2] + t;
      NeverDelayed(s[n..2], t);
    }
  }

  // ---------- What surrounds a coded string ----------

  /** A string in front of another expands on its own. */
  lemma {:induction false} ExpandAppend(s: seq<byte>, t: seq<byte>)
    requires Expand(s).Ok?
    ensures Expand(s + t) == Prepend(Expand(s).value, Expand(t))
  {
    if s == [] {
      assert s + t == t;
      PrependNothing(Expand(t));
    } else {
      var n := if s[0] != 0 then 1 else 2;
      var front := if s[0] != 0 then [s[0]] else Zeros(s[1]);
      assert (s + t)[n..] == s[n..] + t;
      ExpandAppend(s[n..], t);
      PrependTwice(front, Expand(s[n..]).value, Expand(t));
    }
  }

  lemma {:induction false} EncodeLiterals(t: seq<byte>)
    requires 0 !in t
    ensures EncodeFrom(0, t) == t
  {
    if t == [] {
    } else {
      EncodeLiterals(t[1..]);
      assert t == [] + [t[0]] + t[1..];
    }
  }

  /** What the encoder writes for a body, split after the first byte. */
  lemma EncodeFirst(z: nat, body: seq<byte>)
    requires z < 255 && body != []
    ensures EncodeFrom(z, body) == Emitted(z, body[0]) + EncodeFrom(Pending(z, body[0]), body[1..])
  {
    EncodeStep([], z, body, 0);
    assert body[0..] == body;
    assert [] + EncodeFrom(z, body) == EncodeFrom(z, body) && [] + Emitted(z, body[0]) == Emitted(z, body[0]);
  }

  lemma EncodePendingLiterals(z: nat, t: seq<byte>)
    requires z < 255 && t != [] && 0 !in t
    ensures EncodeFrom(z, t) == EncodeFrom(z, []) + t
  {
    EncodeLiterals(t[1..]);
    assert t == [t[0]] + t[1..];
  }

  /** Bytes without a zero come out of the encoder as they are, after whatever precedes them. */
  lemma {:induction false} EncodeThenLiterals(z: nat, b: seq<byte>, t: seq<byte>)
    requires z < 255 && t != [] && 0 !in t
    ensures EncodeFrom(z, b + t) == EncodeFrom(z, b) + t
    decreases b
  {
    hide EncodeFrom, Emitted, Pending;
    if b == [] {
      assert b + t == t;
      EncodePendingLiterals(z, t);
    } else {
      var y := Pending(z, b[0]);
      assert (b + t)[0] == b[0] && (b + t)[1..] == b[1..] + t;
      EncodeFirst(z, b + t);
      EncodeFirst(z, b);
      EncodeThenLiterals(y, b[1..], t);
      Associative(Emitted(z, b[0]), EncodeFrom(y, b[1..]), t);
    }
  }

  /** The encoder's output never ends in a zero byte: a run is closed by its count. */
  lemma {:induction false} EncodeEndsNonZero(z: nat, body: seq<byte>)
    requires z < 255 && (z > 0 || body != [])
    ensures var e := EncodeFrom(z, body); e != [] && e[|e| - 1] != 0
    decreases body
  {
    if body == [] {
    } else {
      EncodeFirst(z, body);
      var y := Pending(z, body[0]);
      if y > 0 || body[1..] != [] {
        EncodeEndsNonZero(y, body[1..]);
      }
    }
  }

  // ---------- Rejected strings ----------

  /** A string is rejected exactly when it is one that expands with a zero byte after it. */
  lemma {:induction false} MissingCountExactly(s: seq<byte>)
    ensures Expand(s).Err? <==> s != [] && s[|s| - 1] == 0 && Expand(s[..|s| - 1]).Ok?
    decreases |s|
  {
    if s == [] {
    } else if |s| == 1 {
      assert s[..0] == [];
    } else {
      var n := if s[0] != 0 then 1 else 2;
      var t := s[n..];
      MissingCountExactly(t);
      if t == [] {
        PairPrefix(s);
      } else {
        assert s[..|s| - 1][n..] == t[..|t| - 1];
        assert s[..|s| - 1][..n] == s[..n];
      }
    }
  }

  /** A pair at the end expands, and without its count it does not. */
  lemma PairPrefix(s: seq<byte>)
    requires |s| == 2 && s[0] == 0
    ensures Expand(s).Ok? && Expand(s[..1]).Err?
  {
    assert s[2..] == [];
  }
}
