/**
 * The pieces of Python's `str` that the file helpers are built from:
 * `isspace`, `isalpha`, slicing `s[k:]`, `partition`, `strip`,
 * `replace`, `find`, `next(filter(...))` and `str(int)`.
 */
module PyText {
  import opened Wrappers

  /** `str.isspace` for one character: Python's whitespace set (also what `strip()` removes). */
  predicate IsSpace(c: char)
  {
    var n := c as int;
    (0x09 <= n <= 0x0D) || (0x1C <= n <= 0x20) || n == 0x85 || n == 0xA0 || n == 0x1680
    || (0x2000 <= n <= 0x200A) || n == 0x2028 || n == 0x2029 || n == 0x202F || n == 0x205F
    || n == 0x3000
  }

  /**
   * `str.isalpha` for one character, restricted to the scripts the certificates
   * are printed in: ASCII and Latin-1 letters, Latin Extended-A and -B, Cyrillic
   * and the basic Arabic letters.
   */
  predicate IsAlpha(c: char)
  {
    var n := c as int;
    ('A' <= c <= 'Z') || ('a' <= c <= 'z')
    || n == 0xAA || n == 0xB5 || n == 0xBA
    || (0xC0 <= n <= 0xD6) || (0xD8 <= n <= 0xF6) || (0xF8 <= n <= 0x24F)
    || (0x400 <= n <= 0x481) || (0x48A <= n <= 0x52F)
    || (0x620 <= n <= 0x64A)
  }

  predicate NoAlpha(s: string)
  {
    forall i :: 0 <= i < |s| ==> !IsAlpha(s[i])
  }

  predicate IsDigit(c: char)
  {
    '0' <= c <= '9'
  }

  /** `s[k:]` with Python's slice rules: a negative `k` counts from the end, and both ends clamp. */
  function SliceFrom(s: string, k: int): string
  {
    if k >= |s| then []
    else if k >= 0 then s[k..]
    else if -k >= |s| then s
    else s[|s| + k..]
  }

  /** A slice `s[k:]` is a suffix of `s`, as long as `s` past `k` (or the last `-k` characters). */
  lemma SliceFromSpec(s: string, k: int)
    ensures var r := SliceFrom(s, k);
      && |r| <= |s| && r == s[|s| - |r|..]
      && (k >= 0 ==> |r| == if k < |s| then |s| - k else 0)
      && (k < 0 ==> |r| == if -k < |s| then -k else |s|)
  {
  }

  /** `s.partition(sep)[0]`: everything before the first `sep`, or all of `s` when there is none. */
  function PartitionHead(s: string, sep: char): string
  {
    if s == [] then []
    else if s[0] == sep then []
    else [s[0]] + PartitionHead(s[1..], sep)
  }

  /** The head is a prefix without `sep`, followed either by nothing or by `sep`. */
  lemma {:induction false} PartitionHeadSpec(s: string, sep: char)
    ensures var r := PartitionHead(s, sep);
      && r <= s
      && sep !in r
      && (r == s || (|r| < |s| && s[|r|] == sep))
  {
    if s != [] && s[0] != sep {
      PartitionHeadSpec(s[1..], sep);
    }
  }

  /** The head of the partition ends at the first separator. */
  lemma PartitionHeadAt(s: string, sep: char, i: nat)
    requires i < |s| && s[i] == sep && sep !in s[..i]
    ensures PartitionHead(s, sep) == s[..i]
  {
    var r := PartitionHead(s, sep);
    PartitionHeadSpec(s, sep);
    assert forall k :: 0 <= k < i ==> s[k] != sep by {
      forall k | 0 <= k < i ensures s[k] != sep { assert s[..i][k] == s[k]; }
    }
    assert |r| == i;
  }

  /** `s.lstrip()`: drop the leading whitespace. */
  function StripLeading(s: string): string
  {
    if s != [] && IsSpace(s[0]) then StripLeading(s[1..]) else s
  }

  /** What `lstrip()` drops is whitespace, and what it keeps does not start with whitespace. */
  lemma {:induction false} StripLeadingSpec(s: string)
    ensures var r := StripLeading(s);
      && |r| <= |s| && r == s[|s| - |r|..]
      && (forall i :: 0 <= i < |s| - |r| ==> IsSpace(s[i]))
      && (r == [] || !IsSpace(r[0]))
  {
    if s != [] && IsSpace(s[0]) {
      StripLeadingSpec(s[1..]);
    }
  }

  /** `s.rstrip()`: drop the trailing whitespace. */
  function StripTrailing(s: string): string
  {
    if s != [] && IsSpace(s[|s| - 1]) then StripTrailing(s[..|s| - 1]) else s
  }

  /** What `rstrip()` drops is whitespace, and what it keeps does not end with whitespace. */
  lemma {:induction false} StripTrailingSpec(s: string)
    ensures var r := StripTrailing(s);
      && r <= s
      && (forall i :: |r| <= i < |s| ==> IsSpace(s[i]))
      && (r == [] || !IsSpace(r[|r| - 1]))
  {
    if s != [] && IsSpace(s[|s| - 1]) {
      StripTrailingSpec(s[..|s| - 1]);
    }
  }

  /** `s[i..i + |r|] == r`, and everything of `s` around it is whitespace. */
  predicate StrippedAt(s: string, i: int, r: string)
  {
    && 0 <= i <= |s| - |r|
    && r == s[i..i + |r|]
    && (forall j :: 0 <= j < i ==> IsSpace(s[j]))
    && (forall j :: i + |r| <= j < |s| ==> IsSpace(s[j]))
  }

  /** `s.strip()`: `lstrip()` then `rstrip()`. */
  function Strip(s: string): string
  {
    StripTrailing(StripLeading(s))
  }

  /** `strip()` keeps the longest middle part that neither starts nor ends with whitespace. */
  lemma StripSpec(s: string)
    ensures var r := Strip(s);
      && (exists i :: StrippedAt(s, i, r))
      && (r == [] || (!IsSpace(r[0]) && !IsSpace(r[|r| - 1])))
      && ((s == [] || (!IsSpace(s[0]) && !IsSpace(s[|s| - 1]))) ==> r == s)
  {
    var left := StripLeading(s);
    var r := StripTrailing(left);
    StripLeadingSpec(s);
    StripTrailingSpec(left);
    assert r == Strip(s);
    assert StrippedAt(s, |s| - |left|, r);
    if r != [] {
      assert r[0] == left[0];
    }
  }

  /** `strip()` only removes characters. */
  lemma StripChars(s: string)
    ensures forall c :: c in Strip(s) ==> c in s
  {
    var r := Strip(s);
    StripSpec(s);
    var i :| StrippedAt(s, i, r);
    forall c | c in r ensures c in s {
      var k :| 0 <= k < |r| && r[k] == c;
      assert s[i + k] == r[k];
    }
  }

  /** `s.replace(a, b)` for one character `a` and one character `b`. */
  function ReplaceChar(s: string, a: char, b: char): string
  {
    if s == [] then [] else [if s[0] == a then b else s[0]] + ReplaceChar(s[1..], a, b)
  }

  /** Every `a` becomes `b`, every other character stays where it is. */
  lemma {:induction false} ReplaceCharSpec(s: string, a: char, b: char)
    ensures var r := ReplaceChar(s, a, b);
      && |r| == |s|
      && forall i :: 0 <= i < |s| ==> r[i] == if s[i] == a then b else s[i]
  {
    if s != [] {
      ReplaceCharSpec(s[1..], a, b);
    }
  }

  /** Replacing a character that does not occur changes nothing. */
  lemma ReplaceCharAbsent(s: string, a: char, b: char)
    requires a !in s
    ensures ReplaceChar(s, a, b) == s
  {
    ReplaceCharSpec(s, a, b);
  }

  /** `s.replace(a, '')`: every `a` deleted, every other character kept in order. */
  function RemoveChar(s: string, a: char): string
  {
    if s == [] then []
    else if s[0] == a then RemoveChar(s[1..], a)
    else [s[0]] + RemoveChar(s[1..], a)
  }

  /** No `a` is left, and nothing changes when there was none. */
  lemma {:induction false} RemoveCharSpec(s: string, a: char)
    ensures var r := RemoveChar(s, a);
      && a !in r
      && |r| <= |s|
      && (a !in s ==> r == s)
  {
    if s != [] {
      RemoveCharSpec(s[1..], a);
      assert s == [s[0]] + s[1..];
    }
  }

  /** `replace(a, '')` keeps every other character as often as it occurs. */
  lemma {:induction false} RemoveCharCount(s: string, a: char)
    ensures multiset(RemoveChar(s, a)) == multiset(s)[a := 0]
  {
    if s != [] {
      RemoveCharCount(s[1..], a);
      assert s == [s[0]] + s[1..];
    }
  }

  /**
   * `replace(a, '')` works piece by piece: on a concatenation it is the concatenation
   * of the results, so the kept characters stay in their order.
   */
  lemma {:induction false} RemoveCharConcat(s: string, t: string, a: char)
    ensures RemoveChar(s + t, a) == RemoveChar(s, a) + RemoveChar(t, a)
  {
    if s == [] {
      assert s + t == t;
    } else {
      assert (s + t)[0] == s[0];
      assert (s + t)[1..] == s[1..] + t;
      RemoveCharConcat(s[1..], t, a);
    }
  }

  /** `replace(a, '')` only removes characters. */
  lemma RemoveCharChars(s: string, a: char)
    ensures forall c :: c in RemoveChar(s, a) ==> c in s
  {
    RemoveCharCount(s, a);
    forall c | c in RemoveChar(s, a) ensures c in s {
      assert multiset(RemoveChar(s, a))[c] > 0;
    }
  }

  /** A character absent before `replace(a, '')` is absent after it. */
  lemma RemoveCharAbsent(s: string, a: char, c: char)
    requires c !in s
    ensures c !in RemoveChar(s, a)
  {
    RemoveCharChars(s, a);
  }

  /** `s.find(c)` for a one-character needle: the first index of `c`, or -1. */
  function Find(s: string, c: char): int
  {
    if s == [] then -1
    else if s[0] == c then 0
    else
      var k := Find(s[1..], c);
      if k == -1 then -1 else k + 1
  }

  /** `find` gives -1 exactly when `c` is missing, and otherwise the index of its first occurrence. */
  lemma {:induction false} FindSpec(s: string, c: char)
    ensures var r := Find(s, c);
      && (r == -1 <==> c !in s)
      && (r != -1 ==> 0 <= r < |s| && s[r] == c && c !in s[..r])
  {
    if s != [] && s[0] != c {
      FindSpec(s[1..], c);
      assert s == [s[0]] + s[1..];
      var k := Find(s[1..], c);
      if k != -1 {
        assert s[..k + 1] == [s[0]] + s[1..][..k];
      }
    }
  }

  /** `next(filter(str.isalpha, s))`: the first alphabetic character; `None` is Python's StopIteration. */
  function FirstAlpha(s: string): Option<char>
  {
    if s == [] then None
    else if IsAlpha(s[0]) then Some(s[0])
    else FirstAlpha(s[1..])
  }

  /** `None` exactly when `s` has no letter; otherwise a letter with no letter before it. */
  lemma {:induction false} FirstAlphaSpec(s: string)
    ensures var r := FirstAlpha(s);
      && (r.None? <==> NoAlpha(s))
      && (r.Some? ==> exists i :: 0 <= i < |s| && s[i] == r.value && IsAlpha(s[i]) && NoAlpha(s[..i]))
  {
    if s == [] {
    } else if IsAlpha(s[0]) {
      assert NoAlpha(s[..0]);
    } else {
      FirstAlphaSpec(s[1..]);
      var r := FirstAlpha(s[1..]);
      assert NoAlpha(s[1..]) ==> NoAlpha(s) by {
        assert forall j :: 1 <= j < |s| ==> s[j] == s[1..][j - 1];
      }
      if r.Some? {
        var i :| 0 <= i < |s| - 1 && s[1..][i] == r.value && IsAlpha(s[1..][i]) && NoAlpha(s[1..][..i]);
        assert s[..i + 1] == [s[0]] + s[1..][..i];
        assert s[i + 1] == r.value;
      }
    }
  }

  function DigitChar(d: nat): (c: char)
    requires d < 10
    ensures IsDigit(c)
  {
    "0123456789"[d]
  }

  function DigitValue(c: char): nat
    requires IsDigit(c)
  {
    (c as int - '0' as int) as nat
  }

  /** `str(n)` for a non-negative integer: its decimal digits, most significant first. */
  function NatToString(n: nat): (r: string)
    ensures r != []
    ensures forall i :: 0 <= i < |r| ==> IsDigit(r[i])
  {
    if n < 10 then [DigitChar(n)] else NatToString(n / 10) + [DigitChar(n % 10)]
  }

  /** The number a string of decimal digits spells. */
  function DecimalValue(s: string): nat
    requires forall i :: 0 <= i < |s| ==> IsDigit(s[i])
  {
    if s == [] then 0 else 10 * DecimalValue(s[..|s| - 1]) + DigitValue(s[|s| - 1])
  }

  /** Reading `int(s)` for a string of digits; `None` when `s` is empty or holds anything else. */
  function ParseNat(s: string): Option<nat>
  {
    if s != [] && forall i :: 0 <= i < |s| ==> IsDigit(s[i]) then Some(DecimalValue(s)) else None
  }

  lemma {:induction false} DecimalOfNatToString(n: nat)
    ensures DecimalValue(NatToString(n)) == n
  {
    var r := NatToString(n);
    if n < 10 {
      assert r[..|r| - 1] == [];
    } else {
      assert r[..|r| - 1] == NatToString(n / 10);
      DecimalOfNatToString(n / 10);
    }
  }

  /** Decimal formatting of a natural number is undone by parsing it back. */
  lemma ParseNatToString(n: nat)
    ensures ParseNat(NatToString(n)) == Some(n)
  {
    DecimalOfNatToString(n);
  }
}
