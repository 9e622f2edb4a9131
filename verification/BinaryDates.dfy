/** Which dates survive binary LLSD: they are written as a double of seconds and read back as whole
    seconds. */
module BinaryDates {
  import opened Bytes
  import opened Doubles
  import opened Osd
  import opened BinaryCodec
  import opened BinaryLaws

  const MILLION: nat := 1_000_000

  /** The largest s for which s * 15625 fits a significand, and so s * 10^6 is a double. */
  const NEAR: nat := 576_460_752_303

  /** Some double's value is exactly n. */
  ghost predicate Representable(n: int) {
    exists b: f64 :: Denotes(b, n)
  }

  /** The value of `a` is a million times n, which is itself a double. */
  ghost predicate Million(a: f64, n: int) {
    Denotes(a, n * MILLION) && Representable(n)
  }

  /** IEEE 754 where it does not round: an integer that is a double converts to it, and a quotient that
      is one comes out exact. Seconds this near are dates. */
  ghost predicate ExactArithmetic(dates: DateCodec) {
    && (forall n | Representable(n) :: Denotes(dates.fromInt(n), n))
    && (forall a, n | Million(a, n) :: Denotes(dates.perMillion(a), n))
    && (forall s: int | Abs(s) <= NEAR :: dates.known(s))
  }

  function WholeSeconds(): OSD -> bool {
    (v: OSD) => v.Date? ==> v.nanos % NANOS == 0
  }

  function NearDates(): OSD -> bool {
    (v: OSD) => v.Date? ==> Abs(v.nanos) <= NEAR * NANOS
  }

  /** Near whole seconds are written as exactly themselves. */
  lemma SecondsAreExact(s: int, dates: DateCodec)
    requires ExactArithmetic(dates) && Abs(s) <= NEAR
    ensures Denotes(SecondsOf(s * NANOS, dates), s)
  {
    hide Denotes, Scaled, Pow2;
    assert s * NANOS / 1000 == s * MILLION;
    assert Pow2(6) == 64 && Pow2(0) == 1 by { SmallPowers(); }
    ScaledDenotes(s * 15625, 6);
    ScaledDenotes(s, 0);
    assert Representable(s * MILLION) && Representable(s);
    assert Million(dates.fromInt(s * MILLION), s);
  }

  lemma SmallPowers()
    ensures Pow2(0) == 1 && Pow2(6) == 64
  {
  }

  lemma WholeSecondKept(nanos: int, dates: DateCodec)
    requires ExactArithmetic(dates) && nanos % NANOS == 0 && Abs(nanos) <= NEAR * NANOS
    ensures DateOf(SecondsOf(nanos, dates), dates) == nanos
  {
    hide Denotes, SecondsOf, AsI64;
    var s := nanos / NANOS;
    SecondsAreExact(s, dates);
    DenotedIsRead(SecondsOf(nanos, dates), s);
  }

  /** Whatever is read as a date is a whole number of seconds. */
  lemma DatesReadAreWhole(dates: DateCodec)
    ensures forall v | DateKept(dates)(v) :: WholeSeconds()(v)
  {
    hide AsI64, SecondsOf;
    forall v: OSD | DateKept(dates)(v)
      ensures WholeSeconds()(v)
    {
      if v.Date? {
        MultipleOfNanos(v.nanos, SecondsOf(v.nanos, dates), dates);
      }
    }
  }

  lemma MultipleOfNanos(nanos: int, seconds: f64, dates: DateCodec)
    requires DateOf(seconds, dates) == nanos
    ensures nanos % NANOS == 0
  {
    hide AsI64;
  }

  /** A tree with a fraction of a second in some date never comes back, whatever the platform does. */
  lemma FractionIsLost(v: OSD, dates: DateCodec)
    requires !All(v, WholeSeconds())
    ensures Parse(Format(v, dates), dates) != Ok(v)
  {
    hide Parse, Format, Decode, DateKept, Collapse, WholeSeconds, All;
    if Parse(Format(v, dates), dates) == Ok(v) {
      assert WellFormed(v) by { ParsedIsWellFormed(Format(v, dates), dates); }
      RoundTripUpToDates(v, dates);
      DatesReadAreWhole(dates);
      AllImplies(v, DateKept(dates), DateKept(dates), WholeSeconds());
    }
  }

  lemma ParsedIsWellFormed(data: seq<byte>, dates: DateCodec)
    requires Parse(data, dates).Ok?
    ensures WellFormed(Parse(data, dates).value)
  {
    hide Decode, Collapse, WellFormed;
    CollapseIsWellFormed(Decode(WithoutHeader(data), dates).value.value);
  }

  /** With near dates a tree comes back exactly when its lengths fit their 32 bits and its dates are
      whole seconds. */
  lemma RoundTripExactly(v: OSD, dates: DateCodec)
    requires WellFormed(v) && ExactArithmetic(dates) && All(v, NearDates())
    ensures Parse(Format(v, dates), dates) == Ok(v) <==> All(v, Sized) && All(v, WholeSeconds())
  {
    hide Parse, Format, All, WellFormed, ExactArithmetic, Sized;
    RoundTripUpToDates(v, dates);
    if All(v, WholeSeconds()) {
      forall x: OSD | WholeSeconds()(x) && NearDates()(x)
        ensures DateKept(dates)(x)
      {
        if x.Date? {
          WholeSecondKept(x.nanos, dates);
        }
      }
      AllImplies(v, WholeSeconds(), NearDates(), DateKept(dates));
    } else {
      FractionIsLost(v, dates);
    }
  }

  /** A nanosecond after the epoch comes back as the epoch. */
  lemma OneNanosecondIsLost(dates: DateCodec)
    requires ExactArithmetic(dates)
    ensures Parse(Format(Date(1), dates), dates) == Ok(Date(0))
  {
    hide Parse, Format, AsI64, ExactArithmetic, Denotes;
    RoundTrip(Date(1), [], dates);
    assert Format(Date(1), dates) + [] == Format(Date(1), dates);
    assert SecondsOf(1, dates) == SecondsOf(0, dates);
    WholeSecondKept(0, dates);
  }

  // ---------- The assumptions hold of some platform ----------

  /** The double that denotes n, if there is one. */
  ghost function DoubleOf(n: int): (b: f64)
    ensures Representable(n) ==> Denotes(b, n)
  {
    if Representable(n) then (var b: f64 :| Denotes(b, n); b) else 0
  }

  ghost function MillionthOf(a: f64): (b: f64)
    ensures (exists n :: Million(a, n)) ==> exists n :: Million(a, n) && b == DoubleOf(n)
  {
    if exists n :: Million(a, n) then (var n :| Million(a, n); DoubleOf(n)) else 0
  }

  lemma MillionthDenotes(a: f64, n: int)
    requires Million(a, n)
    ensures Denotes(MillionthOf(a), n)
  {
    var m :| Million(a, m) && MillionthOf(a) == DoubleOf(m);
    MillionOne(a, m, n);
  }

  lemma MillionOne(a: f64, m: int, n: int)
    requires Million(a, m) && Million(a, n)
    ensures m == n
  {
    DenotesOne(a, m * MILLION, n * MILLION);
  }

  lemma AssumptionsAreConsistent()
    ensures exists dates :: ExactArithmetic(dates)
  {
    hide Denotes;
    var dates := DateCodec((n: int) => DoubleOf(n), (a: f64) => MillionthOf(a), (s: int) => true, 0);
    forall a, n | Million(a, n)
      ensures Denotes(dates.perMillion(a), n)
    {
      MillionthDenotes(a, n);
    }
    assert ExactArithmetic(dates);
  }
}
