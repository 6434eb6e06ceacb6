/** The string operations the front end calls: `toLowerCase`, `startsWith`, `includes`,
    `join`, the digit extraction `replace(/[^0-9]/g, '')`, and decimal numerals. */
module Text {
  import Seqs

  function LowerChar(c: char): char {
    if 'A' <= c <= 'Z' then (c as int + 32) as char else c
  }

  /** `toLowerCase`, on the ASCII letters. */
  function Lower(s: string): (r: string)
    ensures |r| == |s|
    ensures forall i | 0 <= i < |s| :: r[i] == LowerChar(s[i])
  {
    seq(|s|, i requires 0 <= i < |s| => LowerChar(s[i]))
  }

  lemma LowerAppend(a: string, b: string)
    ensures Lower(a + b) == Lower(a) + Lower(b)
  {
  }

  /** `s.startsWith(prefix)`. */
  predicate StartsWith(s: string, prefix: string) {
    prefix <= s
  }

  /** `hay.includes(needle)`: some suffix of `hay` starts with `needle`. */
  predicate Contains(hay: string, needle: string)
    decreases |hay|
  {
    StartsWith(hay, needle) || (|hay| > 0 && Contains(hay[1..], needle))
  }

  /** `needle` occurs in `hay` starting at position `i`. */
  ghost predicate OccursAt(hay: string, needle: string, i: int) {
    0 <= i && i + |needle| <= |hay| && hay[i..i + |needle|] == needle
  }

  /** A substring occurs at some position. */
  lemma {:induction false} ContainsOccurs(hay: string, needle: string) returns (i: nat)
    requires Contains(hay, needle)
    ensures OccursAt(hay, needle, i)
  {
    if StartsWith(hay, needle) {
      i := 0;
    } else {
      var j := ContainsOccurs(hay[1..], needle);
      assert hay[1..][j..j + |needle|] == hay[j + 1..j + 1 + |needle|];
      i := j + 1;
    }
  }

  /** What occurs at some position is a substring. */
  lemma {:induction false} OccursContains(hay: string, needle: string, i: int)
    requires OccursAt(hay, needle, i)
    ensures Contains(hay, needle)
  {
    if i != 0 {
      assert hay[1..][i - 1..i - 1 + |needle|] == hay[i..i + |needle|];
      OccursContains(hay[1..], needle, i - 1);
    }
  }

  /** `Contains` is exactly "`needle` occurs at some position of `hay`". */
  lemma ContainsAt(hay: string, needle: string)
    ensures Contains(hay, needle) <==> exists i :: OccursAt(hay, needle, i)
  {
    if Contains(hay, needle) {
      var i := ContainsOccurs(hay, needle);
    }
    if exists i :: OccursAt(hay, needle, i) {
      var i :| OccursAt(hay, needle, i);
      OccursContains(hay, needle, i);
    }
  }

  /** The empty string is a substring of everything. */
  lemma EmptyContained(hay: string)
    ensures Contains(hay, "")
  {
  }

  /** A substring of a middle part is a substring of the whole. */
  lemma ContainedInMiddle(a: string, b: string, c: string, needle: string)
    requires Contains(b, needle)
    ensures Contains(a + b + c, needle)
  {
    ContainsAt(b, needle);
    ContainsAt(a + b + c, needle);
    var i :| OccursAt(b, needle, i);
    assert (a + b + c)[|a| + i..|a| + i + |needle|] == b[i..i + |needle|];
    assert OccursAt(a + b + c, needle, |a| + i);
  }

  /** Being a substring is transitive. */
  lemma ContainsTrans(hay: string, mid: string, needle: string)
    requires Contains(hay, mid) && Contains(mid, needle)
    ensures Contains(hay, needle)
  {
    ContainsAt(hay, mid);
    ContainsAt(mid, needle);
    var i :| OccursAt(hay, mid, i);
    var j :| OccursAt(mid, needle, j);
    assert hay[i..i + |mid|] == mid;
    forall k | 0 <= k < |needle| ensures hay[i + j..i + j + |needle|][k] == needle[k] {
      assert hay[i + j + k] == hay[i..i + |mid|][j + k] == mid[j + k];
      assert mid[j..j + |needle|][k] == mid[j + k];
    }
    assert OccursAt(hay, needle, i + j);
    ContainsAt(hay, needle);
  }

  /** Lower-casing both sides keeps a substring a substring. */
  lemma LowerKeepsContains(hay: string, needle: string)
    requires Contains(hay, needle)
    ensures Contains(Lower(hay), Lower(needle))
  {
    ContainsAt(hay, needle);
    var i :| OccursAt(hay, needle, i);
    assert Lower(hay)[i..i + |needle|] == Lower(needle);
    assert OccursAt(Lower(hay), Lower(needle), i);
    ContainsAt(Lower(hay), Lower(needle));
  }

  /** `parts.join(sep)`. */
  function Join(parts: seq<string>, sep: string): string
    decreases |parts|
  {
    if |parts| == 0 then ""
    else if |parts| == 1 then parts[0]
    else parts[0] + sep + Join(parts[1..], sep)
  }

  /** Every part occurs in the joined string: `Join(parts, sep) == a + parts[k] + c`. */
  lemma {:induction false} JoinHasPart(parts: seq<string>, sep: string, k: nat)
    requires k < |parts|
    ensures exists a, c :: Join(parts, sep) == a + parts[k] + c
  {
    if |parts| == 1 {
      assert Join(parts, sep) == "" + parts[0] + "";
    } else if k == 0 {
      assert Join(parts, sep) == "" + parts[0] + (sep + Join(parts[1..], sep));
    } else {
      JoinHasPart(parts[1..], sep, k - 1);
      var a, c :| Join(parts[1..], sep) == a + parts[1..][k - 1] + c;
      assert Join(parts, sep) == (parts[0] + sep + a) + parts[k] + c;
    }
  }

  predicate IsDigit(c: char) {
    '0' <= c <= '9'
  }

  /** `s.replace(/[^0-9]/g, '')`: the ASCII digits of `s`, in order. */
  function Digits(s: string): (r: string)
    ensures forall i | 0 <= i < |r| :: IsDigit(r[i])
    ensures forall c :: multiset(r)[c] == if IsDigit(c) then multiset(s)[c] else 0
    ensures Seqs.IsSubsequence(r, s)
  {
    Seqs.FilterCountsAndOrder(s, IsDigit);
    Seqs.Filter(s, IsDigit)
  }

  predicate AllDigits(s: string) {
    forall i | 0 <= i < |s| :: IsDigit(s[i])
  }

  /** A string of digits has no letters to drop, and a string of lower-case letters no digits. */
  lemma DigitsOfLabelAndNumber(word: string, n: string)
    requires forall i | 0 <= i < |word| :: 'a' <= word[i] <= 'z' || 'A' <= word[i] <= 'Z'
    requires AllDigits(n)
    ensures Digits(word + n) == n
  {
    Seqs.FilterAppend(word, n, IsDigit);
    Seqs.FilterKeepsAll(n, IsDigit);
    Seqs.FilterNone(word, IsDigit);
  }

  function DigitChar(d: nat): (c: char)
    requires d < 10
    ensures IsDigit(c)
  {
    (d + '0' as int) as char
  }

  /** Lower-casing leaves lower-case letters and digits alone. */
  lemma LowerOfLowerWord(w: string)
    requires forall i | 0 <= i < |w| :: !('A' <= w[i] <= 'Z')
    ensures Lower(w) == w
  {
  }

  /** A `vaccine` header followed by digits is already lower-case. */
  lemma LowerVaccineKey(d: string)
    requires AllDigits(d)
    ensures Lower("vaccine" + d) == "vaccine" + d
  {
    var k := "vaccine" + d;
    forall i | 0 <= i < |k| ensures !('A' <= k[i] <= 'Z') {
      if i < 7 {
        assert k[i] == "vaccine"[i];
      } else {
        assert k[i] == d[i - 7];
      }
    }
    LowerOfLowerWord(k);
  }

  function DigitValue(c: char): nat
    requires IsDigit(c)
  {
    c as int - '0' as int
  }

  /** The decimal numeral of `n`, as `String(n)` writes it. */
  function Decimal(n: nat): (s: string)
    ensures |s| > 0 && AllDigits(s)
  {
    if n < 10 then [DigitChar(n)] else Decimal(n / 10) + [DigitChar(n % 10)]
  }

  /** The value of a numeral (its inverse). */
  function ParseDecimal(s: string): nat
    requires AllDigits(s)
  {
    if s == [] then 0 else 10 * ParseDecimal(s[..|s| - 1]) + DigitValue(s[|s| - 1])
  }

  lemma {:induction false} ParseDecimalOfDecimal(n: nat)
    ensures ParseDecimal(Decimal(n)) == n
  {
    var s := Decimal(n);
    if n < 10 {
      assert s[..|s| - 1] == [];
    } else {
      ParseDecimalOfDecimal(n / 10);
      assert s[..|s| - 1] == Decimal(n / 10);
    }
  }

  /** Distinct numbers have distinct numerals. */
  lemma DecimalInjective(m: nat, n: nat)
    requires Decimal(m) == Decimal(n)
    ensures m == n
  {
    ParseDecimalOfDecimal(m);
    ParseDecimalOfDecimal(n);
  }
}
