/**
 * The handful of Python string and list built-ins the backend relies on,
 * written out so that their edge cases (empty needles, missing characters,
 * negative slice bounds) are those of CPython.
 */
module PyStr {

  /** `c.isspace()` in CPython: the Unicode whitespace characters. */
  predicate IsSpace(c: char) {
    var n := c as int;
    || 0x09 <= n <= 0x0D || 0x1C <= n <= 0x20 || n == 0x85 || n == 0xA0 || n == 0x1680
    || 0x2000 <= n <= 0x200A || n == 0x2028 || n == 0x2029 || n == 0x202F || n == 0x205F
    || n == 0x3000
  }

  /** `c.lower()` restricted to ASCII letters. */
  function LowerChar(c: char): char {
    if 'A' <= c <= 'Z' then (c as int + 32) as char else c
  }

  /** `s.lower()` character by character. */
  function Lower(s: string): (r: string)
    ensures |r| == |s|
    ensures forall i :: 0 <= i < |s| ==> r[i] == LowerChar(s[i])
  {
    seq(|s|, i requires 0 <= i < |s| => LowerChar(s[i]))
  }

  /** `needle` occurs in `s` starting at index `i`. */
  predicate OccursAt(s: string, needle: string, i: int) {
    0 <= i && i + |needle| <= |s| && s[i..i + |needle|] == needle
  }

  /** Python's `needle in s` for strings. */
  function Contains(s: string, needle: string): (r: bool)
    ensures r <==> exists i :: OccursAt(s, needle, i)
    decreases |s|
  {
    if needle <= s then
      assert OccursAt(s, needle, 0);
      true
    else if |s| == 0 then
      assert forall i :: !OccursAt(s, needle, i);
      false
    else
      var rest := Contains(s[1..], needle);
      assert forall i :: OccursAt(s, needle, i) && i > 0 ==> OccursAt(s[1..], needle, i - 1) by {
        forall i | OccursAt(s, needle, i) && i > 0 ensures OccursAt(s[1..], needle, i - 1) {
          assert s[1..][i - 1..i - 1 + |needle|] == s[i..i + |needle|];
        }
      }
      assert forall i :: OccursAt(s[1..], needle, i) ==> OccursAt(s, needle, i + 1) by {
        forall i | OccursAt(s[1..], needle, i) ensures OccursAt(s, needle, i + 1) {
          assert s[1..][i..i + |needle|] == s[i + 1..i + 1 + |needle|];
        }
      }
      assert !OccursAt(s, needle, 0);
      rest
  }

  /** `s.rfind(c)`: the last index holding `c`, or -1 when there is none. */
  function RFind(s: string, c: char): (r: int)
    ensures -1 <= r < |s|
  {
    if |s| == 0 then -1
    else if s[|s| - 1] == c then |s| - 1
    else RFind(s[..|s| - 1], c)
  }

  lemma {:induction false} RFindIsLast(s: string, c: char)
    ensures RFind(s, c) >= 0 ==> s[RFind(s, c)] == c
    ensures forall j :: RFind(s, c) < j < |s| ==> s[j] != c
    decreases |s|
  {
    if |s| > 0 && s[|s| - 1] != c {
      RFindIsLast(s[..|s| - 1], c);
    }
  }

  /** Number of leading whitespace characters: the first `n` are whitespace and the next one, if any, is not. */
  function LeadingSpace(s: string): (n: nat)
    ensures n <= |s|
    ensures forall j :: 0 <= j < n ==> IsSpace(s[j])
    ensures n < |s| ==> !IsSpace(s[n])
  {
    if |s| > 0 && IsSpace(s[0]) then 1 + LeadingSpace(s[1..]) else 0
  }

  /** `s.strip()`: whitespace removed at both ends. */
  function Strip(s: string): (r: string)
    ensures |r| <= |s|
    decreases |s|
  {
    if |s| > 0 && IsSpace(s[0]) then Strip(s[1..])
    else if |s| > 0 && IsSpace(s[|s| - 1]) then Strip(s[..|s| - 1])
    else s
  }

  /**
   * What `strip` leaves is a contiguous slice of its argument, and what it
   * removes is whitespace: the leading run counted by `LeadingSpace` and a
   * trailing run after the slice.
   */
  lemma {:induction false} StripIsSlice(s: string)
    ensures LeadingSpace(s) + |Strip(s)| <= |s|
    ensures Strip(s) == s[LeadingSpace(s)..LeadingSpace(s) + |Strip(s)|]
    ensures forall j :: LeadingSpace(s) + |Strip(s)| <= j < |s| ==> IsSpace(s[j])
    decreases |s|
  {
    StripTrailingSpace(s);
    if |s| > 0 && IsSpace(s[0]) {
      StripIsSlice(s[1..]);
      var a, n := LeadingSpace(s[1..]), |Strip(s)|;
      assert Strip(s) == Strip(s[1..]) && LeadingSpace(s) == 1 + a;
      assert a + n <= |s| - 1;
      var u, w := s[1..][a..a + n], s[1 + a..1 + a + n];
      forall k | 0 <= k < n ensures u[k] == w[k] {
        assert s[1..][a + k] == s[1 + a + k];
      }
      assert u == w;
    } else if |s| > 0 && IsSpace(s[|s| - 1]) {
      var t := s[..|s| - 1];
      StripIsSlice(t);
      assert t[0] == s[0];
      assert LeadingSpace(t) == 0 && LeadingSpace(s) == 0;
      assert t[0..|Strip(s)|] == s[0..|Strip(s)|];
    } else {
      assert s[0..|s|] == s;
    }
  }

  /** The characters after what `strip` keeps are whitespace. */
  lemma {:induction false} StripTrailingSpace(s: string)
    ensures LeadingSpace(s) + |Strip(s)| <= |s|
    ensures forall j :: LeadingSpace(s) + |Strip(s)| <= j < |s| ==> IsSpace(s[j])
    decreases |s|
  {
    if |s| > 0 && IsSpace(s[0]) {
      StripTrailingSpace(s[1..]);
      var a, n := LeadingSpace(s[1..]), |Strip(s)|;
      assert Strip(s) == Strip(s[1..]) && LeadingSpace(s) == 1 + a;
      forall j | 1 + a + n <= j < |s| ensures IsSpace(s[j]) {
        assert s[j] == s[1..][j - 1];
      }
    } else if |s| > 0 && IsSpace(s[|s| - 1]) {
      var t := s[..|s| - 1];
      StripTrailingSpace(t);
      assert t[0] == s[0];
      assert LeadingSpace(t) == 0 && LeadingSpace(s) == 0;
      forall j | |Strip(s)| <= j < |s| ensures IsSpace(s[j]) {
        if j < |t| { assert s[j] == t[j]; }
      }
    }
  }

  /** What `strip` leaves neither starts nor ends with whitespace. */
  lemma {:induction false} StripTrimmed(s: string)
    ensures Strip(s) != [] ==> !IsSpace(Strip(s)[0]) && !IsSpace(Strip(s)[|Strip(s)| - 1])
    decreases |s|
  {
    if |s| > 0 && IsSpace(s[0]) {
      StripTrimmed(s[1..]);
    } else if |s| > 0 && IsSpace(s[|s| - 1]) {
      StripTrimmed(s[..|s| - 1]);
    }
  }

  lemma SliceOfSlice(t: string, a: int, b: int, c: int, d: int)
    requires 0 <= a <= b <= |t| && 0 <= c <= d <= b - a
    ensures t[a..b][c..d] == t[a + c..a + d]
  {
    assert forall i :: 0 <= i < d - c ==> t[a..b][c..d][i] == t[a + c + i];
  }

  /** `s.replace(old, "")`: every non-overlapping occurrence, scanned left to right, removed. */
  function RemoveAll(s: string, pat: string): (r: string)
    requires pat != []
    ensures |r| <= |s|
    decreases |s|
  {
    if |s| < |pat| then s
    else if s[..|pat|] == pat then RemoveAll(s[|pat|..], pat)
    else [s[0]] + RemoveAll(s[1..], pat)
  }

  /** Removing a pattern that does not occur changes nothing. */
  lemma {:induction false} RemoveAllAbsent(s: string, pat: string)
    requires pat != [] && !Contains(s, pat)
    ensures RemoveAll(s, pat) == s
    decreases |s|
  {
    if |s| >= |pat| {
      assert s[..|pat|] != pat;
      RemoveAllAbsent(s[1..], pat);
      assert s == [s[0]] + s[1..];
    }
  }

  /**
   * Removing `pat` from `stem + pat` gives back `stem` when `stem` holds no occurrence
   * and the first character of `pat` does not recur in it (as for ".pdf"), so that no
   * occurrence can straddle the join.
   */
  lemma {:induction false} RemoveAllTrailing(stem: string, pat: string)
    requires pat != [] && !Contains(stem, pat)
    requires forall i :: 0 < i < |pat| ==> pat[i] != pat[0]
    ensures RemoveAll(stem + pat, pat) == stem
    decreases |stem|
  {
    var s := stem + pat;
    if stem == [] {
      assert s[..|pat|] == pat && s[|pat|..] == [];
    } else {
      assert s[..|pat|] != pat by {
        if |stem| >= |pat| {
          assert s[..|pat|] == stem[..|pat|];
        } else {
          assert s[..|pat|][|stem|] == pat[0];
        }
      }
      assert s[1..] == stem[1..] + pat;
      RemoveAllTrailing(stem[1..], pat);
      assert stem == [stem[0]] + stem[1..];
    }
  }

  /** `s.replace(a, b)` for single characters. */
  function ReplaceChar(s: string, a: char, b: char): (r: string)
    ensures |r| == |s|
    ensures forall i :: 0 <= i < |s| ==> r[i] == (if s[i] == a then b else s[i])
  {
    seq(|s|, i requires 0 <= i < |s| => if s[i] == a then b else s[i])
  }

  /** Number of occurrences of `c` in `s`. */
  function CountChar(s: string, c: char): nat {
    if s == [] then 0 else (if s[0] == c then 1 else 0) + CountChar(s[1..], c)
  }

  lemma {:induction false} CountCharAppend(a: string, b: string, c: char)
    ensures CountChar(a + b, c) == CountChar(a, c) + CountChar(b, c)
    decreases |a|
  {
    if a == [] {
      assert a + b == b;
    } else {
      assert (a + b)[1..] == a[1..] + b;
      CountCharAppend(a[1..], b, c);
    }
  }

  lemma {:induction false} CountCharAbsent(s: string, c: char)
    requires c !in s
    ensures CountChar(s, c) == 0
    decreases |s|
  {
    if s != [] {
      CountCharAbsent(s[1..], c);
    }
  }

  /** Python's `s[:k]` on a list: negative `k` counts from the end. */
  function PyPrefix<T>(s: seq<T>, k: int): (r: seq<T>)
    ensures r <= s
    ensures k >= 0 ==> |r| == if k < |s| then k else |s|
    ensures k < 0 ==> |r| == if |s| + k > 0 then |s| + k else 0
  {
    if k >= 0 then (if k < |s| then s[..k] else s)
    else (if |s| + k > 0 then s[..|s| + k] else [])
  }

}
