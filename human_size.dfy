/**
 * `SystemMonitor.get_size`: turning a byte count into a human-readable size.
 *
 * The source walks the unit ladder '', K, M, G, T, P, dividing by 1024 after
 * each unit, and stops at the first unit where the scaled value is below 1024.
 * A value still at least 1024 after the P step falls off the end of the loop,
 * and the function returns `None`. Sizes are exact reals here; the rendering
 * of the scaled value with two decimals is not modelled, only the value and
 * the unit it is shown in.
 */
module HumanSize {
  import opened Wrappers

  /** The unit ladder, from plain bytes up to petabytes. */
  const Units: seq<string> := ["", "K", "M", "G", "T", "P"]

  /** Each step up the ladder divides by this factor. */
  const Base: real := 1024.0

  /** A humanised size: the scaled value and the index of its unit in `Units`. */
  datatype Size = Size(scaled: real, unit: nat)

  /** `Base` raised to the power `k`: the number of bytes in one unit `Units[k]`. */
  function Pow(k: nat): (r: real)
    ensures r >= 1.0
  {
    if k == 0 then 1.0 else Base * Pow(k - 1)
  }

  /** The unit suffix printed after the scaled value, e.g. "KB". */
  function Suffix(s: Size): (text: string)
    requires s.unit < |Units|
    ensures |text| >= 1 && text[|text| - 1] == 'B'
  {
    Units[s.unit] + "B"
  }

  /** The printed suffix identifies the unit: different units never print the same suffix. */
  lemma SuffixInjective(s: Size, t: Size)
    requires s.unit < |Units| && t.unit < |Units|
    requires Suffix(s) == Suffix(t)
    ensures s.unit == t.unit
  {
    assert Suffix(s)[..|Suffix(s)| - 1] == Units[s.unit];
    assert Suffix(t)[..|Suffix(t)| - 1] == Units[t.unit];
  }

  /**
   * The specification of get_size: `o` is the reading of `bytes` when
   * either `o` names the first unit whose scaled value `bytes / Base^k` is
   * below `Base`, together with that scaled value, or there is no such unit
   * on the ladder and `o` is `None`.
   */
  ghost predicate IsReading(o: Option<Size>, bytes: real) {
    match o
    case None => bytes >= Pow(|Units|)
    case Some(s) =>
      && s.unit < |Units|
      && s.scaled == bytes / Pow(s.unit)
      && s.scaled < Base
      && forall j :: 0 <= j < s.unit ==> bytes / Pow(j) >= Base
  }

  /**
   * The loop of get_size from step `k` on, with `value` the byte count
   * already divided `k` times.
   */
  function Ladder(value: real, k: nat): (r: Option<Size>)
    ensures r.Some? ==> k <= r.value.unit < |Units|
    decreases |Units| - k
  {
    if k >= |Units| then None
    else if value < Base then Some(Size(value, k))
    else Ladder(value / Base, k + 1)
  }

  /** get_size as a function, for the record builders that call it. */
  function SizeOf(bytes: real): (r: Option<Size>)
    ensures IsReading(r, bytes)
  {
    LadderReads(bytes, 0);
    Ladder(bytes, 0)
  }

  /** get_size as the source writes it: a loop that divides in place. */
  method GetSize(bytes: real) returns (r: Option<Size>)
    ensures IsReading(r, bytes)
    ensures r == SizeOf(bytes)
  {
    var value := bytes;
    for k := 0 to |Units|
      invariant value == bytes / Pow(k)
      invariant forall j :: 0 <= j < k ==> bytes / Pow(j) >= Base
    {
      if value < Base {
        r := Some(Size(value, k));
        ReadingIsUnique(r, bytes);
        return;
      }
      StepDown(bytes, k);
      value := value / Base;
    }
    AboveBase(bytes, |Units| - 1);
    r := None;
    ReadingIsUnique(r, bytes);
  }

  /** Dividing once more by `Base` gives the value scaled to the next unit. */
  lemma StepDown(bytes: real, k: nat)
    ensures (bytes / Pow(k)) / Base == bytes / Pow(k + 1)
  {
    var p := Pow(k);
    assert Pow(k + 1) == Base * p;
    calc {
      (bytes / p) / Base;
      == { assert bytes / p == bytes * (1.0 / p); }
      bytes * (1.0 / p) / Base;
      == { assert (1.0 / p) / Base == 1.0 / (Base * p); }
      bytes * (1.0 / (Base * p));
      ==
      bytes / (Base * p);
    }
  }

  /** A scaled value of at least `Base` means the byte count is at least one unit further up. */
  lemma AboveBase(bytes: real, k: nat)
    requires bytes / Pow(k) >= Base
    ensures bytes >= Pow(k + 1)
  {
    var p := Pow(k);
    assert Pow(k + 1) == Base * p;
    assert bytes == (bytes / p) * p;
  }

  /** A scaled value below `Base` means the byte count is below one unit further up. */
  lemma BelowBase(bytes: real, k: nat)
    requires bytes / Pow(k) < Base
    ensures bytes < Pow(k + 1)
  {
    var p := Pow(k);
    assert Pow(k + 1) == Base * p;
    assert bytes == (bytes / p) * p;
  }

  /** Division by a positive size is undone by multiplying back. */
  lemma DivTimes(x: real, p: real)
    requires p > 0.0
    ensures (x / p) * p == x
  {
  }

  /** A count of at least `Base` times a positive size, divided by that size, is at least `Base`. */
  lemma DivAtLeast(x: real, p: real)
    requires p > 0.0 && x >= Base * p
    ensures x / p >= Base
  {
    DivTimes(x, p);
  }

  /** Units further up the ladder are larger. */
  lemma {:induction false} PowMonotone(i: nat, j: nat)
    requires i <= j
    ensures Pow(i) <= Pow(j)
  {
    if i < j {
      PowMonotone(i, j - 1);
    }
  }

  /** The loop, entered at step `k` after `k` unsuccessful tests, produces the reading. */
  lemma {:induction false} LadderReads(bytes: real, k: nat)
    requires k <= |Units|
    requires forall j :: 0 <= j < k ==> bytes / Pow(j) >= Base
    ensures IsReading(Ladder(bytes / Pow(k), k), bytes)
    decreases |Units| - k
  {
    if k == |Units| {
      AboveBase(bytes, k - 1);
    } else if bytes / Pow(k) >= Base {
      StepDown(bytes, k);
      LadderReads(bytes, k + 1);
    }
  }

  /** Exactly one result is a reading of `bytes`: the specification determines get_size. */
  lemma ReadingIsUnique(o: Option<Size>, bytes: real)
    requires IsReading(o, bytes)
    ensures o == SizeOf(bytes)
  {
    var r := SizeOf(bytes);
    match o
    case None =>
      if r.Some? {
        BelowBase(bytes, r.value.unit);
        PowMonotone(r.value.unit + 1, |Units|);
      }
    case Some(s) =>
      if r.None? {
        BelowBase(bytes, s.unit);
        PowMonotone(s.unit + 1, |Units|);
      }
  }

  /** Any value below 1024, zero and negative values included, is shown unscaled in bytes. */
  lemma BelowBaseIsUnscaled(bytes: real)
    requires bytes < Base
    ensures SizeOf(bytes) == Some(Size(bytes, 0))
  {
    ReadingIsUnique(Some(Size(bytes, 0)), bytes);
  }

  /** The boundaries below one kilobyte: 0 and 1023 stay in bytes. */
  lemma BytesBoundaries()
    ensures SizeOf(0.0) == Some(Size(0.0, 0)) && Suffix(SizeOf(0.0).value) == "B"
    ensures SizeOf(1023.0) == Some(Size(1023.0, 0)) && Suffix(SizeOf(1023.0).value) == "B"
  {
    BelowBaseIsUnscaled(0.0);
    BelowBaseIsUnscaled(1023.0);
  }

  /** Exactly 1024 bytes is shown as 1 K. */
  lemma KiloBoundary()
    ensures SizeOf(1024.0) == Some(Size(1.0, 1)) && Suffix(SizeOf(1024.0).value) == "KB"
  {
    ReadingIsUnique(Some(Size(1.0, 1)), 1024.0);
  }

  /** Exactly 1024^4 bytes is shown as 1 T. */
  lemma TeraBoundary()
    ensures SizeOf(Pow(4)) == Some(Size(1.0, 4)) && Suffix(SizeOf(Pow(4)).value) == "TB"
  {
    var t := Pow(4);
    forall j | 0 <= j < 4
      ensures t / Pow(j) >= Base
    {
      PowMonotone(j + 1, 4);
      DivAtLeast(t, Pow(j));
    }
    assert t / Pow(4) == 1.0;
    ReadingIsUnique(Some(Size(1.0, 4)), t);
  }

  /** get_size returns `None` exactly when the byte count reaches 1024^6. */
  lemma NoneIffOffTheLadder(bytes: real)
    ensures SizeOf(bytes).None? <==> bytes >= Pow(|Units|)
  {
    var r := SizeOf(bytes);
    if r.Some? {
      BelowBase(bytes, r.value.unit);
      PowMonotone(r.value.unit + 1, |Units|);
    }
  }

  /**
   * For a nonnegative byte count the scaled value lies in [0, 1024), and in
   * any unit above plain bytes it is at least 1.
   */
  lemma ScaledRange(bytes: real)
    requires bytes >= 0.0
    ensures SizeOf(bytes).Some? ==> 0.0 <= SizeOf(bytes).value.scaled < Base
    ensures SizeOf(bytes).Some? && SizeOf(bytes).value.unit > 0 ==> SizeOf(bytes).value.scaled >= 1.0
  {
    var r := SizeOf(bytes);
    if r.Some? && r.value.unit > 0 {
      var k := r.value.unit - 1;
      assert bytes / Pow(k) >= Base;
      StepDown(bytes, k);
    }
  }

  /**
   * A reading, which by SizeOf's contract is what get_size returns, denotes
   * the byte count exactly: scaled value times unit size gives it back.
   */
  lemma RoundTrip(bytes: real, s: Size)
    requires IsReading(Some(s), bytes)
    ensures s.scaled * Pow(s.unit) == bytes
  {
    ScaledTimesUnit(bytes, s.scaled, Pow(s.unit));
  }

  /** A value divided by a positive unit size, multiplied back, is the value again. */
  lemma ScaledTimesUnit(bytes: real, scaled: real, p: real)
    requires p > 0.0 && scaled == bytes / p
    ensures scaled * p == bytes
  {
    DivTimes(bytes, p);
  }

  /** The rank of a result on the ladder: its unit index, or one past the top for `None`. */
  function Rank(o: Option<Size>): (r: nat) {
    if o.None? then |Units| else o.value.unit
  }

  /** A larger byte count is never shown in a smaller unit, nor as a reading when a smaller one overflows. */
  lemma RankMonotone(a: real, b: real)
    requires a <= b
    ensures Rank(SizeOf(a)) <= Rank(SizeOf(b))
  {
    var ra, rb := SizeOf(a), SizeOf(b);
    if Rank(rb) < Rank(ra) {
      var k := rb.value.unit;
      BelowBase(b, k);
      if ra.None? {
        PowMonotone(k + 1, |Units|);
      } else {
        AboveBase(a, k);
      }
    }
  }
}
