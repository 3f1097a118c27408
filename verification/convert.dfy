/** The type-conversion layer: how scalar values become the text stored in a
    node or an attribute, and how that text is turned back into a value.

    Two parsers appear in the repository. The document engine's `as_int`,
    `as_uint`, `as_llong`, `as_ullong` never fail: they read an optional sign
    and the leading decimal digits, and saturate at the bounds of the target
    type. `std::stoi`, used by the older `num_onverter`, fails when there is no
    digit or when the value does not fit an `int`. Both skip leading white
    space. Rendering is plain decimal (`std::to_string` and the engine agree). */
module Convert {
  import opened Wrappers

  /** The integer types the accessors have overloads for. */
  datatype IntKind = Int | Unsigned | LongLong | ULongLong

  function MinOf(k: IntKind): int {
    match k
    case Int => -0x8000_0000
    case Unsigned => 0
    case LongLong => -0x8000_0000_0000_0000
    case ULongLong => 0
  }

  function MaxOf(k: IntKind): int {
    match k
    case Int => 0x7FFF_FFFF
    case Unsigned => 0xFFFF_FFFF
    case LongLong => 0x7FFF_FFFF_FFFF_FFFF
    case ULongLong => 0xFFFF_FFFF_FFFF_FFFF
  }

  predicate InRange(k: IntKind, n: int) {
    MinOf(k) <= n <= MaxOf(k)
  }

  /** Saturation to the range of `k`, as the engine does on overflow. */
  function Clamp(k: IntKind, n: int): (r: int)
    ensures InRange(k, r)
    ensures InRange(k, n) ==> r == n
    ensures n <= MinOf(k) ==> r == MinOf(k)
    ensures n >= MaxOf(k) ==> r == MaxOf(k)
  {
    if n < MinOf(k) then MinOf(k) else if n > MaxOf(k) then MaxOf(k) else n
  }

  // ---------------------------------------------------------------------
  // Decimal digits

  predicate IsDigit(c: char) {
    '0' <= c <= '9'
  }

  predicate AllDigits(s: string) {
    forall i :: 0 <= i < |s| ==> IsDigit(s[i])
  }

  function DigitValue(c: char): nat
    requires IsDigit(c)
  {
    c as int - '0' as int
  }

  function DigitChar(d: nat): (c: char)
    requires d < 10
    ensures IsDigit(c) && DigitValue(c) == d
  {
    ('0' as int + d) as char
  }

  /** The decimal digits of `m`, most significant first, with no leading zero. */
  function Digits(m: nat): (s: string)
    ensures |s| > 0 && AllDigits(s)
    ensures m > 0 ==> s[0] != '0'
    decreases m
  {
    if m < 10 then [DigitChar(m)] else Digits(m / 10) + [DigitChar(m % 10)]
  }

  /** The number a string of decimal digits denotes. */
  function ValueOf(s: string): nat
    requires AllDigits(s)
    decreases |s|
  {
    if |s| == 0 then 0 else ValueOf(s[..|s| - 1]) * 10 + DigitValue(s[|s| - 1])
  }

  lemma {:induction false} ValueOfDigits(m: nat)
    ensures ValueOf(Digits(m)) == m
    decreases m
  {
    if m >= 10 {
      var s := Digits(m / 10) + [DigitChar(m % 10)];
      assert s[..|s| - 1] == Digits(m / 10);
      ValueOfDigits(m / 10);
    }
  }

  function Abs(n: int): nat {
    if n < 0 then -n else n
  }

  /** Decimal rendering of an integer: a minus sign for negative values, then
      the digits of the magnitude. */
  function RenderInt(n: int): (s: string)
    ensures |s| > 0
    ensures s[0] == '-' <==> n < 0
    ensures n >= 0 ==> AllDigits(s)
  {
    if n < 0 then "-" + Digits(-n) else Digits(n)
  }

  // ---------------------------------------------------------------------
  // Parsing

  /** The length of the run of digits that starts `s`. */
  function DigitRun(s: string): (k: nat)
    ensures k <= |s| && AllDigits(s[..k])
    ensures k < |s| ==> !IsDigit(s[k])
    decreases |s|
  {
    if |s| > 0 && IsDigit(s[0]) then
      var k' := DigitRun(s[1..]);
      assert s[..1 + k'] == [s[0]] + s[1..][..k'];
      1 + k'
    else 0
  }

  lemma {:induction false} DigitRunAll(s: string)
    requires AllDigits(s)
    ensures DigitRun(s) == |s|
    decreases |s|
  {
    if |s| > 0 {
      DigitRunAll(s[1..]);
    }
  }

  /** What a leading optional sign and run of digits say: how many digits
      there were and the signed value they denote (0 when there is none). */
  datatype Leading = Leading(digits: nat, value: int)

  function SignedPrefix(s: string): Leading {
    var signed := |s| > 0 && (s[0] == '-' || s[0] == '+');
    var rest := if signed then s[1..] else s;
    var k := DigitRun(rest);
    var mag: int := ValueOf(rest[..k]);
    Leading(k, if signed && s[0] == '-' then -mag else mag)
  }

  /** Reading back a rendered integer finds all of its digits and its value. */
  lemma SignedPrefixOfRender(n: int)
    ensures SignedPrefix(RenderInt(n)) == Leading(|Digits(Abs(n))|, n)
  {
    var d := Digits(Abs(n));
    DigitRunAll(d);
    ValueOfDigits(Abs(n));
    assert d[..|d|] == d;
    if n < 0 {
      assert RenderInt(n)[1..] == d;
    }
  }

  /** Drops the leading characters that belong to `ws`. */
  function SkipSpace(s: string, ws: set<char>): (r: string)
    ensures |r| <= |s| && r == s[|s| - |r|..]
    ensures |r| > 0 ==> r[0] !in ws
    decreases |s|
  {
    if |s| > 0 && s[0] in ws then SkipSpace(s[1..], ws) else s
  }

  /** The white space the document engine skips before a number. */
  const EngineSpace: set<char> := {' ', '\t', '\n', '\r'}

  /** The white space `std::isspace` reports in the "C" locale. */
  const CSpace: set<char> := {' ', '\t', '\n', '\r', '\U{B}', '\U{C}'}

  /** The engine's integer reading of a stored value, for a target of kind `k`:
      never fails, saturates on overflow, and reads text without digits as 0. */
  function EngineInt(k: IntKind, s: string): (r: int)
    ensures InRange(k, r)
    ensures SignedPrefix(SkipSpace(s, EngineSpace)).digits == 0 ==> r == 0
  {
    Clamp(k, SignedPrefix(SkipSpace(s, EngineSpace)).value)
  }

  /** `std::stoi`: `None` stands for the exception it throws when no digit
      follows the optional sign or the value does not fit an `int`. */
  function Stoi(s: string): (r: Option<int>)
    ensures r.Some? ==> InRange(Int, r.value)
    ensures r.Some? <==> SignedPrefix(SkipSpace(s, CSpace)).digits > 0 && InRange(Int, SignedPrefix(SkipSpace(s, CSpace)).value)
  {
    var l := SignedPrefix(SkipSpace(s, CSpace));
    if l.digits == 0 || !InRange(Int, l.value) then None else Some(l.value)
  }

  lemma RenderHasNoLeadingSpace(n: int, ws: set<char>)
    requires '-' !in ws && forall c :: IsDigit(c) ==> c !in ws
    ensures SkipSpace(RenderInt(n), ws) == RenderInt(n)
  {
    var s := RenderInt(n);
    if n >= 0 {
      assert IsDigit(s[0]);
    }
  }

  /** The engine reads back every in-range integer it rendered. */
  lemma EngineIntOfRender(k: IntKind, n: int)
    requires InRange(k, n)
    ensures EngineInt(k, RenderInt(n)) == n
  {
    RenderHasNoLeadingSpace(n, EngineSpace);
    SignedPrefixOfRender(n);
  }

  /** `std::stoi(std::to_string(n)) == n` for every `int`. */
  lemma StoiOfRender(n: int)
    requires InRange(Int, n)
    ensures Stoi(RenderInt(n)) == Some(n)
  {
    RenderHasNoLeadingSpace(n, CSpace);
    SignedPrefixOfRender(n);
  }

  // ---------------------------------------------------------------------
  // Booleans

  /** The engine writes a boolean as "true" or "false"... */
  function RenderBool(b: bool): (s: string)
    ensures s != ""
    ensures EngineBool(s) == b
  {
    if b then "true" else "false"
  }

  /** ...and reads any value whose first character is 1, t, T, y or Y as true. */
  function EngineBool(s: string): bool {
    |s| > 0 && s[0] in {'1', 't', 'T', 'y', 'Y'}
  }

  // ---------------------------------------------------------------------
  // Scalars: the closed set of non-string types the accessors overload on

  datatype ScalarKind = IntKindOf(ik: IntKind) | BoolKind

  datatype Scalar = IntValue(kind: IntKind, n: int) | BoolValue(b: bool)

  function KindOf(v: Scalar): ScalarKind {
    match v
    case IntValue(k, _) => IntKindOf(k)
    case BoolValue(_) => BoolKind
  }

  /** A value its C++ type can hold. */
  predicate WellTyped(v: Scalar) {
    v.IntValue? ==> InRange(v.kind, v.n)
  }

  /** The value a fallback-less engine read yields for a missing value: 0 or false. */
  function Zero(k: ScalarKind): (r: Scalar)
    ensures KindOf(r) == k && WellTyped(r)
  {
    match k
    case IntKindOf(ik) => IntValue(ik, 0)
    case BoolKind => BoolValue(false)
  }

  function Render(v: Scalar): (s: string)
    ensures s != ""
  {
    match v
    case IntValue(_, n) => RenderInt(n)
    case BoolValue(b) => RenderBool(b)
  }

  /** The engine's reading of a stored (non-empty) value as a scalar of kind `k`. */
  function Parse(k: ScalarKind, s: string): (r: Scalar)
    ensures KindOf(r) == k && WellTyped(r)
  {
    match k
    case IntKindOf(ik) => IntValue(ik, EngineInt(ik, s))
    case BoolKind => BoolValue(EngineBool(s))
  }

  /** Every value of a supported type survives rendering and parsing. */
  lemma ParseOfRender(v: Scalar)
    requires WellTyped(v)
    ensures Parse(KindOf(v), Render(v)) == v
  {
    if v.IntValue? {
      EngineIntOfRender(v.kind, v.n);
    }
  }
}
