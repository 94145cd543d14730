/** Byte strings, as a Node.js Buffer holds them, and the three string
    operations the signing code applies to them: `indexOf`, `split` on one
    separator byte and a base-10 `parseInt`. */
module Bytes {
  import opened Wrappers

  newtype byte = b: int | 0 <= b < 256

  /** The bytes of an ASCII string literal. */
  function Ascii(s: string): (r: seq<byte>)
    requires forall i :: 0 <= i < |s| ==> s[i] as int < 128
    ensures |r| == |s|
    ensures forall i :: 0 <= i < |s| ==> r[i] as int == s[i] as int
  {
    seq(|s|, i requires 0 <= i < |s| => s[i] as int as byte)
  }

  // ---------------------------------------------------------------------
  // indexOf

  /** `pat` occurs in `s` starting at index `i`. */
  predicate OccursAt(s: seq<byte>, pat: seq<byte>, i: nat)
  {
    i + |pat| <= |s| && s[i..i + |pat|] == pat
  }

  /** `Buffer.indexOf(pat, from)`: the first occurrence at or after `from`. */
  function IndexFrom(s: seq<byte>, pat: seq<byte>, from: nat): (r: Option<nat>)
    ensures r.Some? ==> from <= r.value && OccursAt(s, pat, r.value)
    ensures r.Some? ==> forall j: nat :: from <= j < r.value ==> !OccursAt(s, pat, j)
    ensures r.None? ==> forall j: nat :: from <= j ==> !OccursAt(s, pat, j)
    decreases |s| - from
  {
    if from + |pat| > |s| then None
    else if s[from..from + |pat|] == pat then Some(from)
    else IndexFrom(s, pat, from + 1)
  }

  /** `Buffer.indexOf(pat)`: the first occurrence in the whole buffer, or
      None where JavaScript answers -1. */
  function IndexOf(s: seq<byte>, pat: seq<byte>): (r: Option<nat>)
    ensures r.Some? ==> OccursAt(s, pat, r.value)
    ensures r.Some? ==> forall j: nat :: j < r.value ==> !OccursAt(s, pat, j)
    ensures r.None? <==> forall j: nat :: !OccursAt(s, pat, j)
  {
    IndexFrom(s, pat, 0)
  }

  // ---------------------------------------------------------------------
  // split and its inverse

  /** `String.split(sep)` with a one-character separator: every separator
      ends a field, so "a b " gives ["a", "b", ""] and "" gives [""]. */
  function Split(s: seq<byte>, sep: byte): (fields: seq<seq<byte>>)
    ensures |fields| >= 1
    ensures forall k :: 0 <= k < |fields| ==> sep !in fields[k]
    decreases |s|
  {
    if s == [] then [[]]
    else
      var rest := Split(s[1..], sep);
      if s[0] == sep then [[]] + rest
      else [[s[0]] + rest[0]] + rest[1..]
  }

  /** `Array.join(sep)`: the fields with one separator between neighbours. */
  function Join(fields: seq<seq<byte>>, sep: byte): seq<byte>
    requires |fields| >= 1
  {
    if |fields| == 1 then fields[0] else fields[0] + [sep] + Join(fields[1..], sep)
  }

  /** Splitting loses nothing: joining the fields gives the input back. */
  lemma {:induction false} JoinSplit(s: seq<byte>, sep: byte)
    ensures Join(Split(s, sep), sep) == s
    decreases |s|
  {
    if s != [] {
      var rest := Split(s[1..], sep);
      JoinSplit(s[1..], sep);
      if s[0] == sep {
        assert ([[]] + rest)[1..] == rest;
        assert s == [] + [sep] + s[1..];
      } else if |rest| == 1 {
        assert s == [s[0]] + rest[0];
      } else {
        var fs := [[s[0]] + rest[0]] + rest[1..];
        assert fs[1..] == rest[1..];
        assert Join(rest, sep) == rest[0] + [sep] + Join(rest[1..], sep);
        assert s == [s[0]] + s[1..];
      }
    }
  }

  /** Splitting `f + t` where `f` holds no separator glues `f` onto the
      first field of `t`. */
  lemma {:induction false} SplitPrefix(f: seq<byte>, t: seq<byte>, sep: byte)
    requires sep !in f
    ensures Split(f + t, sep) == [f + Split(t, sep)[0]] + Split(t, sep)[1..]
    decreases |f|
  {
    if f == [] {
      var st := Split(t, sep);
      assert f + t == t && f + st[0] == st[0];
      assert st == [st[0]] + st[1..];
    } else {
      var s, st := f + t, Split(t, sep);
      assert s[0] == f[0] && s[1..] == f[1..] + t;
      SplitPrefix(f[1..], t, sep);
      var rest := Split(s[1..], sep);
      assert rest == [f[1..] + st[0]] + st[1..];
      assert rest[0] == f[1..] + st[0] && rest[1..] == st[1..];
      assert Split(s, sep) == [[f[0]] + rest[0]] + rest[1..];
      assert [f[0]] + (f[1..] + st[0]) == f + st[0];
    }
  }

  /** Splitting is the inverse of joining fields that hold no separator. */
  lemma {:induction false} SplitJoin(fields: seq<seq<byte>>, sep: byte)
    requires |fields| >= 1
    requires forall k :: 0 <= k < |fields| ==> sep !in fields[k]
    ensures Split(Join(fields, sep), sep) == fields
    decreases |fields|
  {
    if |fields| == 1 {
      SplitPrefix(fields[0], [], sep);
      assert fields[0] + [] == fields[0];
    } else {
      var t := Join(fields[1..], sep);
      SplitJoin(fields[1..], sep);
      assert Join(fields, sep) == fields[0] + ([sep] + t);
      SplitPrefix(fields[0], [sep] + t, sep);
      var st := Split([sep] + t, sep);
      assert ([sep] + t)[0] == sep && ([sep] + t)[1..] == t;
      assert st == [[]] + fields[1..];
      assert st[0] == [] && st[1..] == fields[1..];
      assert fields[0] + st[0] == fields[0];
      assert fields == [fields[0]] + fields[1..];
    }
  }

  // ---------------------------------------------------------------------
  // parseInt(s, 10)

  const DigitZero: byte := 48  // '0'

  predicate IsDigit(b: byte)
  {
    DigitZero <= b <= DigitZero + 9
  }

  /** The number a string of decimal digits denotes, most significant first. */
  function DigitsValue(s: seq<byte>): nat
    requires forall i :: 0 <= i < |s| ==> IsDigit(s[i])
  {
    if s == [] then 0
    else
      assert IsDigit(s[|s| - 1]);
      10 * DigitsValue(s[..|s| - 1]) + (s[|s| - 1] - DigitZero) as int
  }

  /** `parseInt(s, 10)` on a non-empty string of decimal digits; any other
      string gives None (JavaScript's NaN). */
  function ParseDecimal(s: seq<byte>): (r: Option<nat>)
    ensures r.None? <==> !IsDigitRun(s)
    ensures r.Some? ==> r.value == DigitsValue(s)
  {
    if |s| > 0 && forall i :: 0 <= i < |s| ==> IsDigit(s[i]) then Some(DigitsValue(s)) else None
  }

  /** A non-empty run of decimal digits: the strings this model reads as numbers. */
  predicate IsDigitRun(s: seq<byte>)
  {
    |s| > 0 && forall i :: 0 <= i < |s| ==> IsDigit(s[i])
  }

  /** The shortest decimal spelling of `n`, as `String(n)` writes it. */
  function Decimal(n: nat): (r: seq<byte>)
    ensures |r| >= 1
    ensures forall i :: 0 <= i < |r| ==> IsDigit(r[i])
  {
    if n < 10 then [DigitZero + n as byte]
    else Decimal(n / 10) + [DigitZero + (n % 10) as byte]
  }

  /** `k` zero digits, the padding of a fixed-width number literal. */
  function ZeroDigits(k: nat): (r: seq<byte>)
    ensures |r| == k && forall i :: 0 <= i < k ==> r[i] == DigitZero
  {
    seq(k, _ => DigitZero)
  }

  lemma {:induction false} DigitsValueDecimal(n: nat)
    ensures DigitsValue(Decimal(n)) == n
    decreases n
  {
    var s := Decimal(n);
    if n >= 10 {
      DigitsValueDecimal(n / 10);
      assert s[..|s| - 1] == Decimal(n / 10);
    } else {
      assert s[..|s| - 1] == [];
    }
  }

  /** A leading zero digit does not change the value. */
  lemma {:induction false} DigitsValueLeadingZero(s: seq<byte>)
    requires forall i :: 0 <= i < |s| ==> IsDigit(s[i])
    ensures DigitsValue([DigitZero] + s) == DigitsValue(s)
    decreases |s|
  {
    var z := [DigitZero] + s;
    if s == [] {
      assert z[..0] == [];
    } else {
      assert z[..|z| - 1] == [DigitZero] + s[..|s| - 1];
      DigitsValueLeadingZero(s[..|s| - 1]);
    }
  }

  /** parseInt reads a zero-padded decimal literal back as the number it
      spells: `parseInt("000" + String(n), 10) == n`. */
  lemma {:induction false} ParseZeroPadded(k: nat, n: nat)
    ensures ParseDecimal(ZeroDigits(k) + Decimal(n)) == Some(n)
    decreases k
  {
    if k == 0 {
      assert ZeroDigits(k) + Decimal(n) == Decimal(n);
      DigitsValueDecimal(n);
    } else {
      ParseZeroPadded(k - 1, n);
      var s := ZeroDigits(k - 1) + Decimal(n);
      assert ZeroDigits(k) + Decimal(n) == [DigitZero] + s;
      DigitsValueLeadingZero(s);
    }
  }
}
