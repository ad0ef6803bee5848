/** Dimensions that are either fixed by the type (the const parameter N, which by convention
    is nonzero) or carried at run time (allowed only when N is 0). The const parameter is a
    field here. Display renders a static dimension as "_" followed by N in decimal and a
    dynamic one as its value in decimal. */
module Dims {
  import opened Options
  import opened Arith

  datatype Kind = Static | Dynamic(v: nat)

  /** A value of type Dim<N>. */
  datatype Dim = Dim(n: nat, kind: Kind)

  /** The library's convention: a runtime value only in Dim<0>. */
  predicate Conventional(d: Dim)
  {
    d.kind.Dynamic? ==> d.n == 0
  }

  /** static_dim: the static variant of Dim<N>. */
  function StaticDim(n: nat): (d: Dim)
    ensures d.n == n && IsStatic(d) && Value(d) == n
  {
    Dim(n, Static)
  }

  /** dynamic: Dim<N>::Dynamic(v), refused (a panic) unless N is 0. */
  function DynamicDim(n: nat, v: nat): (d: Option<Dim>)
    ensures d.Some? <==> n == 0
    ensures d.Some? ==> d.value.n == n && !IsStatic(d.value) && Value(d.value) == v && Conventional(d.value)
  {
    if n != 0 then None else Some(Dim(n, Dynamic(v)))
  }

  /** to_dynamic: Dim<0>::Dynamic(N), refused (a panic) when N is 0. */
  function ToDynamic(d: Dim): (r: Option<Dim>)
    ensures r.Some? <==> d.n != 0
    ensures r.Some? ==> r.value.n == 0 && !IsStatic(r.value) && Value(r.value) == d.n
  {
    if d.n == 0 then None else Some(Dim(0, Dynamic(d.n)))
  }

  /** value: N for the static variant, the carried value for the dynamic one. */
  function Value(d: Dim): (r: nat)
    ensures IsStatic(d) ==> r == d.n
    ensures !IsStatic(d) ==> r == d.kind.v
  {
    match d.kind
    case Static => d.n
    case Dynamic(v) => v
  }

  /** is_static. */
  predicate IsStatic(d: Dim)
    ensures IsStatic(d) <==> Show(d)[0] == '_'
  {
    d.kind.Static?
  }

  /** From<usize> for Dim<0>. */
  function FromNat(v: nat): (d: Dim)
    ensures d.n == 0 && !IsStatic(d) && Value(d) == v && Conventional(d)
  {
    DynamicDim(0, v).value
  }

  /** On a dimension that follows the convention, a successful to_dynamic keeps the value;
      only static dimensions convert. */
  lemma ToDynamicKeepsValue(d: Dim)
    requires Conventional(d) && ToDynamic(d).Some?
    ensures IsStatic(d) && Value(ToDynamic(d).value) == Value(d) && Conventional(ToDynamic(d).value)
  {
  }

  /* ---------- Display ---------- */

  function DigitChar(x: nat): (c: char)
    requires x < 10
    ensures '0' <= c <= '9'
  {
    "0123456789"[x]
  }

  /** Decimal digits of n, most significant first, no leading zeros. */
  function Decimal(n: nat): (s: seq<char>)
    ensures |s| >= 1 && forall i :: 0 <= i < |s| ==> '0' <= s[i] <= '9'
    ensures |s| > 1 ==> s[0] != '0'
  {
    if n < 10 then [DigitChar(n)] else Decimal(n / 10) + [DigitChar(n % 10)]
  }

  /** The value of a string of decimal digits. */
  function ParseDecimal(s: seq<char>): nat
    requires forall i :: 0 <= i < |s| ==> '0' <= s[i] <= '9'
  {
    if s == [] then 0
    else ParseDecimal(s[..|s| - 1]) * 10 + ((s[|s| - 1] as int) - ('0' as int))
  }

  /** Decimal rendering loses nothing: parsing it gives the number back. */
  lemma {:induction false} DecimalRoundTrip(n: nat)
    ensures ParseDecimal(Decimal(n)) == n
  {
    if n >= 10 {
      var q, r := n / 10, n % 10;
      DivMod(n, 10);
      var s := Decimal(n);
      assert s == Decimal(q) + [DigitChar(r)];
      assert s[..|s| - 1] == Decimal(q) && s[|s| - 1] == DigitChar(r);
      DigitCharValue(r);
      DecimalRoundTrip(q);
    } else {
      DigitCharValue(n);
    }
  }

  /** A digit character stands for its own value. */
  lemma DigitCharValue(x: nat)
    requires x < 10
    ensures (DigitChar(x) as int) - ('0' as int) == x
  {
  }

  /** Display for Dim<N>. */
  function Show(d: Dim): (s: seq<char>)
    ensures |s| >= 1 && (s[0] == '_' <==> d.kind.Static?)
    ensures forall i :: 0 < i < |s| ==> '0' <= s[i] <= '9'
  {
    match d.kind
    case Static => "_" + Decimal(d.n)
    case Dynamic(v) => Decimal(v)
  }

  /** Display can be read back: a leading '_' marks a static dimension and the digits give
      its value, so two dimensions of the same type display alike only when they are equal. */
  lemma ShowReadsBack(d: Dim)
    ensures IsStatic(d) <==> Show(d)[0] == '_'
    ensures IsStatic(d) ==> ParseDecimal(Show(d)[1..]) == Value(d)
    ensures !IsStatic(d) ==> ParseDecimal(Show(d)) == Value(d)
  {
    DecimalRoundTrip(Value(d));
    if IsStatic(d) {
      assert Show(d)[1..] == Decimal(d.n);
    }
  }

  lemma ShowInjective(d: Dim, e: Dim)
    requires d.n == e.n && Show(d) == Show(e)
    ensures d == e
  {
    ShowReadsBack(d);
    ShowReadsBack(e);
  }

  /** The tests: Dim<32> static shows "_32" with value 32; Dim<0>::dynamic(17) shows "17";
      42 converts to a dynamic dimension of value 42; Dim<8>::dynamic panics; Dim<64>
      converts to a dynamic dimension of value 64. */
  lemma DimExamples()
    ensures IsStatic(StaticDim(32)) && Value(StaticDim(32)) == 32 && Show(StaticDim(32)) == "_32"
    ensures DynamicDim(0, 17).Some? && Show(DynamicDim(0, 17).value) == "17"
    ensures Value(FromNat(42)) == 42
    ensures DynamicDim(8, 8).None?
    ensures ToDynamic(StaticDim(64)).Some? && Value(ToDynamic(StaticDim(64)).value) == 64
  {
    assert Decimal(3) == "3" && Decimal(2) == "2";
    assert Decimal(32) == "32";
    assert Decimal(1) == "1" && Decimal(7) == "7";
    assert Decimal(17) == "17";
  }
}
