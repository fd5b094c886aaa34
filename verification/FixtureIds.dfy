/** The identifiers of seeded rows: `createFixtureId` and the shape identifiers must have. */
module FixtureIds {
  function Digit(d: nat): (c: char)
    requires d < 10
    ensures '0' <= c <= '9'
  {
    d as char + '0'
  }

  predicate Numeral(s: string) {
    forall i :: 0 <= i < |s| ==> '0' <= s[i] <= '9'
  }

  /** `toString` of a natural number. */
  function ToDecimal(n: nat): (s: string)
    ensures s != [] && Numeral(s)
  {
    if n < 10 then [Digit(n)] else ToDecimal(n / 10) + [Digit(n % 10)]
  }

  function Zeros(k: nat): (s: string)
    ensures |s| == k && Numeral(s)
  {
    if k == 0 then "" else Zeros(k - 1) + "0"
  }

  /** `padStart(k, "0")`. */
  function PadStart(s: string, k: nat): string {
    if |s| < k then Zeros(k - |s|) + s else s
  }

  /** `slice(-k)`, for a positive k. */
  function SliceLast(s: string, k: nat): string
    requires k > 0
  {
    if |s| <= k then s else s[|s| - k..]
  }

  function LastDigits(n: nat, k: nat): string
    requires k > 0
  {
    SliceLast(PadStart(ToDecimal(n), k), k)
  }

  function Assembled(namespacePart: string, indexPart: string): string {
    "00000000-0000-0000-" + namespacePart + "-" + indexPart
  }

  function CreateFixtureId(namespace: nat, index: nat): string {
    Assembled(LastDigits(namespace, 4), LastDigits(index, 12))
  }

  predicate Hex(s: string) {
    forall i :: 0 <= i < |s| ==> '0' <= s[i] <= '9' || 'a' <= s[i] <= 'f' || 'A' <= s[i] <= 'F'
  }

  /** The identifier pattern: hexadecimal digits in groups of 8, 4, 4, 4 and 12. */
  predicate IsUuid(s: string) {
    && |s| == 36
    && s[8] == s[13] == s[18] == s[23] == '-'
    && Hex(s[..8]) && Hex(s[9..13]) && Hex(s[14..18]) && Hex(s[19..23]) && Hex(s[24..])
  }

  function Pow10(k: nat): (p: nat)
    ensures p > 0
  {
    if k == 0 then 1 else 10 * Pow10(k - 1)
  }

  /** The number that decimal digits spell. */
  function Value(s: string): nat
    requires Numeral(s)
  {
    if s == [] then 0 else 10 * Value(s[..|s| - 1]) + (s[|s| - 1] - '0') as nat
  }

  lemma MultipleIsFar(m: nat, x: int)
    ensures x >= 1 ==> m * x >= m
    ensures x <= -1 ==> m * x + m <= 0
  {
  }

  lemma ModUnique(n: nat, m: nat, q: nat, r: nat)
    requires n == m * q + r && r < m
    ensures n % m == r
  {
    var x := q - n / m;
    assert m * x == n % m - r;
    MultipleIsFar(m, x);
  }

  lemma ModPow10(n: nat, k: nat)
    requires k > 0
    ensures n % Pow10(k) == 10 * (n / 10 % Pow10(k - 1)) + n % 10
  {
    var p := Pow10(k - 1);
    var q := n / 10;
    assert n == 10 * (p * (q / p) + q % p) + n % 10;
    assert n == 10 * p * (q / p) + (10 * (q % p) + n % 10);
    ModUnique(n, 10 * p, q / p, 10 * (q % p) + n % 10);
  }

  /** The last k decimal digits of a number, one by one. */
  function Digits(n: nat, k: nat): (s: string)
    ensures |s| == k && Numeral(s)
  {
    if k == 0 then "" else Digits(n / 10, k - 1) + [Digit(n % 10)]
  }

  lemma SliceStep(s: string, d: char, k: nat)
    requires k > 1 && |s| >= k - 1
    ensures SliceLast(s + [d], k) == SliceLast(s, k - 1) + [d]
  {
  }

  lemma PadStep(s: string, d: char, k: nat)
    requires k > 1
    ensures PadStart(s + [d], k) == PadStart(s, k - 1) + [d]
    ensures PadStart([d], k) == PadStart("0", k - 1) + [d]
  {
  }

  lemma PadSliceStep(s: string, t: string, d: char, k: nat)
    requires k > 1 && (s == t + [d] || (s == [d] && t == "0"))
    ensures SliceLast(PadStart(s, k), k) == SliceLast(PadStart(t, k - 1), k - 1) + [d]
  {
    PadStep(t, d, k);
    SliceStep(PadStart(t, k - 1), d, k);
  }

  lemma LastDigitsStep(n: nat, k: nat)
    requires k > 1
    ensures LastDigits(n, k) == LastDigits(n / 10, k - 1) + [Digit(n % 10)]
  {
    PadSliceStep(ToDecimal(n), ToDecimal(n / 10), Digit(n % 10), k);
  }

  /** Padding and slicing give exactly the last k digits. */
  lemma {:induction false} LastDigitsAreDigits(n: nat, k: nat)
    requires k > 0
    ensures LastDigits(n, k) == Digits(n, k)
    decreases k
  {
    if k == 1 {
      assert Digits(n, 1) == Digits(n / 10, 0) + [Digit(n % 10)] == [Digit(n % 10)];
    } else {
      LastDigitsAreDigits(n / 10, k - 1);
      LastDigitsStep(n, k);
    }
  }

  lemma {:induction false} DigitsSpellRemainder(n: nat, k: nat)
    ensures Value(Digits(n, k)) == n % Pow10(k)
  {
    if k > 0 {
      DigitsSpellRemainder(n / 10, k - 1);
      ModPow10(n, k);
      var s := Digits(n, k);
      assert s[..k - 1] == Digits(n / 10, k - 1);
    }
  }

  lemma {:induction false} DigitsIff(m: nat, n: nat, k: nat)
    ensures Digits(m, k) == Digits(n, k) <==> m % Pow10(k) == n % Pow10(k)
  {
    DigitsSpellRemainder(m, k);
    DigitsSpellRemainder(n, k);
    if k > 0 && m % Pow10(k) == n % Pow10(k) {
      ModPow10(m, k);
      ModPow10(n, k);
      DigitsIff(m / 10, n / 10, k - 1);
    }
  }

  /** What padding and slicing keep of a number: its remainder by 10^k, in exactly k digits. */
  lemma LastDigitsSpellRemainder(n: nat, k: nat)
    requires k > 0
    ensures |LastDigits(n, k)| == k && Numeral(LastDigits(n, k)) && Value(LastDigits(n, k)) == n % Pow10(k)
  {
    LastDigitsAreDigits(n, k);
    DigitsSpellRemainder(n, k);
  }

  lemma AssembledParts(namespacePart: string, indexPart: string)
    requires |namespacePart| == 4 && |indexPart| == 12
    ensures var id := Assembled(namespacePart, indexPart);
            |id| == 36 && id[..19] == "00000000-0000-0000-" && id[19..23] == namespacePart && id[23] == '-'
            && id[24..] == indexPart
  {
  }

  /** Every fixture identifier has the shape that identifier validation asks for. */
  lemma FixtureIdIsUuid(namespace: nat, index: nat)
    ensures IsUuid(CreateFixtureId(namespace, index))
  {
  }

  lemma PowersOfTen()
    ensures Pow10(4) == 10_000 && Pow10(12) == 1_000_000_000_000
  {
  }

  /** An identifier is a fixed prefix, then four digits of the namespace and twelve of the index. */
  lemma FixtureIdParts(namespace: nat, index: nat)
    ensures var id := CreateFixtureId(namespace, index);
            && |id| == 36 && id[..19] == "00000000-0000-0000-" && id[23] == '-'
            && Numeral(id[19..23]) && Value(id[19..23]) == namespace % 10_000
            && Numeral(id[24..]) && Value(id[24..]) == index % 1_000_000_000_000
  {
    PowersOfTen();
    LastDigitsSpellRemainder(namespace, 4);
    LastDigitsSpellRemainder(index, 12);
    AssembledParts(LastDigits(namespace, 4), LastDigits(index, 12));
  }

  /** Two fixture identifiers collide exactly when their parts agree modulo 10^4 and 10^12. */
  lemma FixtureIdsCollideIff(namespace: nat, index: nat, namespaceToo: nat, indexToo: nat)
    ensures CreateFixtureId(namespace, index) == CreateFixtureId(namespaceToo, indexToo)
       <==> namespace % 10_000 == namespaceToo % 10_000 && index % 1_000_000_000_000 == indexToo % 1_000_000_000_000
  {
    PowersOfTen();
    LastDigitsAreDigits(namespace, 4);
    LastDigitsAreDigits(index, 12);
    LastDigitsAreDigits(namespaceToo, 4);
    LastDigitsAreDigits(indexToo, 12);
    DigitsIff(namespace, namespaceToo, 4);
    DigitsIff(index, indexToo, 12);
    AssembledParts(Digits(namespace, 4), Digits(index, 12));
    AssembledParts(Digits(namespaceToo, 4), Digits(indexToo, 12));
  }
}
