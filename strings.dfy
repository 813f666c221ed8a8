/**
 * The few operations of java.lang.String that the renamer's index arithmetic
 * relies on: indexOf / lastIndexOf of a character or of a string, contains and
 * trim. Each is stated by what it finds, so that the callers can be proved
 * from these contracts alone.
 */
module Strings {

  /** `p` occurs in `s` starting at index `k`. */
  ghost predicate OccursAt(s: string, p: string, k: int)
  {
    0 <= k && k + |p| <= |s| && s[k..k + |p|] == p
  }

  /** A character that String.trim removes: every code point up to and including the space. */
  predicate Blank(c: char)
  {
    c <= ' '
  }

  /** No character of `s` is blank. */
  predicate NoBlank(s: string)
  {
    forall i :: 0 <= i < |s| ==> !Blank(s[i])
  }

  /** The index of the last `c` in `s[..n]`, or -1 when there is none. */
  function LastIndexOfCharBefore(s: string, c: char, n: nat): (r: int)
    requires n <= |s|
    ensures -1 <= r < n
    ensures r >= 0 ==> s[r] == c
    ensures forall j :: r < j < n ==> s[j] != c
  {
    if n == 0 then -1
    else if s[n - 1] == c then n - 1
    else LastIndexOfCharBefore(s, c, n - 1)
  }

  /** String.lastIndexOf(c): the index of the last `c` in `s`, or -1 when there is none. */
  function LastIndexOfChar(s: string, c: char): (r: int)
    ensures -1 <= r < |s|
    ensures r >= 0 ==> s[r] == c
    ensures forall j :: r < j < |s| ==> s[j] != c
  {
    LastIndexOfCharBefore(s, c, |s|)
  }

  /** The first index from `i` on at which `p` occurs in `s`, or -1. */
  function IndexFrom(s: string, p: string, i: nat): (r: int)
    ensures r == -1 || (i <= r && OccursAt(s, p, r))
    ensures forall k :: i <= k && (r < 0 || k < r) ==> !OccursAt(s, p, k)
    decreases |s| - i
  {
    if i + |p| > |s| then -1
    else if s[i..i + |p|] == p then i
    else IndexFrom(s, p, i + 1)
  }

  /** String.indexOf(p): the first index at which `p` occurs in `s`, or -1 when it does not occur. */
  function IndexOf(s: string, p: string): (r: int)
    ensures -1 <= r <= |s|
    ensures r >= 0 ==> OccursAt(s, p, r)
    ensures forall k :: 0 <= k && (r < 0 || k < r) ==> !OccursAt(s, p, k)
  {
    IndexFrom(s, p, 0)
  }

  /** The last index up to `i` at which `p` occurs in `s`, or -1. */
  function LastIndexFrom(s: string, p: string, i: int): (r: int)
    requires i + |p| <= |s|
    ensures r == -1 || (0 <= r <= i && OccursAt(s, p, r))
    ensures forall k :: r < k <= i ==> !OccursAt(s, p, k)
    decreases i + 1
  {
    if i < 0 then -1
    else if s[i..i + |p|] == p then i
    else LastIndexFrom(s, p, i - 1)
  }

  /** String.lastIndexOf(p): the last index at which `p` occurs in `s`, or -1 when it does not occur. */
  function LastIndexOf(s: string, p: string): (r: int)
    ensures -1 <= r <= |s|
    ensures r >= 0 ==> OccursAt(s, p, r)
    ensures forall k :: r < k ==> !OccursAt(s, p, k)
  {
    LastIndexFrom(s, p, |s| - |p|)
  }

  /** A character absent from every position of a range is absent from that slice. */
  lemma AbsentFromSlice(s: string, c: char, i: nat, j: nat)
    requires i <= j <= |s|
    requires forall k :: i <= k < j ==> s[k] != c
    ensures c !in s[i..j]
  {
    forall k | 0 <= k < j - i ensures s[i..j][k] != c {
      assert s[i..j][k] == s[i + k];
    }
  }

  /** String.contains(p). */
  predicate Contains(s: string, p: string)
  {
    IndexOf(s, p) >= 0
  }

  lemma ContainsAt(s: string, p: string, k: int)
    requires OccursAt(s, p, k)
    ensures Contains(s, p)
  {
  }

  /** A pattern found in `x` is still found once text is added on either side. */
  lemma ContainsInConcat(x: string, y: string, p: string)
    requires Contains(x, p)
    ensures Contains(x + y, p) && Contains(y + x, p)
  {
    var k := IndexOf(x, p);
    assert (x + y)[k..k + |p|] == x[k..k + |p|];
    ContainsAt(x + y, p, k);
    assert (y + x)[|y| + k..|y| + k + |p|] == x[k..k + |p|];
    ContainsAt(y + x, p, |y| + k);
  }

  /** The index of the first non-blank character of `s` at or after `i`, or `|s|`. */
  function SkipBlanks(s: string, i: nat): (r: nat)
    requires i <= |s|
    ensures i <= r <= |s|
    ensures forall k :: i <= k < r ==> Blank(s[k])
    ensures r < |s| ==> !Blank(s[r])
    decreases |s| - i
  {
    if i < |s| && Blank(s[i]) then SkipBlanks(s, i + 1) else i
  }

  /** One past the last non-blank character of `s[..j]`, or 0 when there is none. */
  function BackBlanks(s: string, j: nat): (r: nat)
    requires j <= |s|
    ensures r <= j
    ensures forall k :: r <= k < j ==> Blank(s[k])
    ensures r > 0 ==> !Blank(s[r - 1])
  {
    if j > 0 && Blank(s[j - 1]) then BackBlanks(s, j - 1) else j
  }

  /**
   * String.trim: strip blank characters from both ends. The result is the
   * slice of `s` between its first and its last non-blank character, or
   * empty when `s` is all blank.
   */
  function Trim(s: string): (r: string)
    ensures r == [] <==> forall k :: 0 <= k < |s| ==> Blank(s[k])
    ensures r != [] ==> !Blank(r[0]) && !Blank(r[|r| - 1])
  {
    var lo := SkipBlanks(s, 0);
    if lo == |s| then []
    else
      var hi := BackBlanks(s, |s|);
      assert !Blank(s[lo]);
      s[lo..hi]
  }

  /** A string with no blank at either end. */
  predicate Trimmed(s: string)
  {
    s == [] || (!Blank(s[0]) && !Blank(s[|s| - 1]))
  }

  lemma TrimOfTrimmed(s: string)
    requires Trimmed(s)
    ensures Trim(s) == s
  {
    if s != [] {
      assert SkipBlanks(s, 0) == 0;
      assert BackBlanks(s, |s|) == |s|;
      assert s[0..|s|] == s;
    }
  }

  /** The result of String.trim is trimmed. */
  lemma TrimIsTrimmed(s: string)
    ensures Trimmed(Trim(s))
  {
  }

  /** A trimmed string is its own trim, also with nothing appended. */
  lemma TrimOfTrimmedEmpty(s: string)
    requires Trimmed(s)
    ensures Trim(Trim(s) + "") == s
  {
    TrimOfTrimmed(s);
    assert s + "" == s;
  }

  /** A non-empty pattern without blanks that occurs in `s` survives String.trim. */
  lemma TrimKeepsWord(s: string, p: string)
    requires p != [] && NoBlank(p) && Contains(s, p)
    ensures Contains(Trim(s), p)
  {
    var k := IndexOf(s, p);
    OccurrenceChar(s, p, k, 0);
    OccurrenceChar(s, p, k, |p| - 1);
    var lo, hi := SkipBlanks(s, 0), BackBlanks(s, |s|);
    assert lo <= k by { assert !Blank(s[k]); }
    assert k + |p| <= hi by { assert !Blank(s[k + |p| - 1]); }
    assert Trim(s) == s[lo..hi];
    OccursInSlice(s, lo, hi, p, k);
  }

  /** An occurrence of `p` in `s` that lies between `lo` and `hi` is one in `s[lo..hi]`. */
  lemma OccursInSlice(s: string, lo: nat, hi: nat, p: string, k: nat)
    requires lo <= k && k + |p| <= hi <= |s| && OccursAt(s, p, k)
    ensures Contains(s[lo..hi], p)
  {
    var r := s[lo..hi];
    assert r[k - lo..k - lo + |p|] == s[k..k + |p|] by {
      forall i | k - lo <= i < k - lo + |p| ensures r[i] == s[lo + i] {
      }
    }
    ContainsAt(r, p, k - lo);
  }

  /**
   * Appending a separator and a non-blank word to a trimmed string and then
   * trimming keeps everything but the separator when the string was empty.
   */
  lemma TrimJoin(b: string, w: string)
    requires Trimmed(b) && w != [] && NoBlank(w)
    ensures Trim(b + " " + w) == if b == [] then w else b + " " + w
  {
    var s := b + " " + w;
    if b == [] {
      assert s[1..] == w;
      assert SkipBlanks(s, 0) == 1 by {
        assert Blank(s[0]) && s[1] == w[0];
      }
      assert BackBlanks(s, |s|) == |s| by { assert s[|s| - 1] == w[|w| - 1]; }
    } else {
      assert SkipBlanks(s, 0) == 0 by { assert s[0] == b[0]; }
      assert BackBlanks(s, |s|) == |s| by { assert s[|s| - 1] == w[|w| - 1]; }
      assert s[0..|s|] == s;
    }
  }

  /** A pattern found in a slice of `s` is found in `s`. */
  lemma ContainsInSlice(s: string, i: nat, j: nat, p: string)
    requires i <= j <= |s| && Contains(s[i..j], p)
    ensures Contains(s, p)
  {
    var k := IndexOf(s[i..j], p);
    var a, b := s[i..j][k..k + |p|], s[i + k..i + k + |p|];
    forall n | 0 <= n < |p| ensures a[n] == b[n] {
      assert a[n] == s[i + k + n];
    }
    assert a == b;
    ContainsAt(s, p, i + k);
  }

  /** String.trim adds no character. */
  lemma TrimAvoids(s: string, c: char)
    requires c !in s
    ensures c !in Trim(s)
  {
    var r := Trim(s);
    if r != [] {
      forall k | 0 <= k < |r| ensures r[k] != c {
        assert r[k] == s[SkipBlanks(s, 0) + k];
      }
    }
  }

  /** The result of String.trim is a slice of its argument. */
  lemma TrimIsSlice(s: string)
    ensures exists i, j :: 0 <= i <= j <= |s| && Trim(s) == s[i..j]
  {
    if Trim(s) == [] {
      assert Trim(s) == s[0..0];
    } else {
      assert Trim(s) == s[SkipBlanks(s, 0)..BackBlanks(s, |s|)];
    }
  }

  /** A pattern found in the trimmed string is found in the string. */
  lemma ContainsInTrim(s: string, p: string)
    requires Contains(Trim(s), p)
    ensures Contains(s, p)
  {
    TrimIsSlice(s);
    var i, j :| 0 <= i <= j <= |s| && Trim(s) == s[i..j];
    ContainsInSlice(s, i, j, p);
  }

  /** A string that ends in a non-blank character keeps that end under String.trim. */
  lemma TrimKeepsLast(s: string)
    requires s != [] && !Blank(s[|s| - 1])
    ensures Trim(s) != [] && Trim(s)[|Trim(s)| - 1] == s[|s| - 1]
  {
    assert BackBlanks(s, |s|) == |s|;
  }

  /** A trimmed string followed by one space trims back to itself. */
  lemma TrimDropsSpace(b: string)
    requires Trimmed(b)
    ensures Trim(b + " ") == b
  {
    var s := b + " ";
    if b == [] {
      assert forall k :: 0 <= k < |s| ==> Blank(s[k]);
    } else {
      assert SkipBlanks(s, 0) == 0 by { assert s[0] == b[0]; }
      assert BackBlanks(s, |s|) == |b| by {
        assert Blank(s[|s| - 1]) && s[|b| - 1] == b[|b| - 1];
      }
      assert s[0..|b|] == b;
    }
  }

  /** The only occurrence of a blank-free pattern in `b + " " + p`, when `b` lacks it, is the last one. */
  lemma OnlyAtEnd(b: string, p: string)
    requires p != [] && NoBlank(p) && !Contains(b, p)
    ensures IndexOf(b + " " + p, p) == |b| + 1
    ensures LastIndexOf(b + " " + p, p) == |b| + 1
  {
    var s := b + " " + p;
    assert s[|b| + 1..] == p;
    assert OccursAt(s, p, |b| + 1);
    forall k | 0 <= k < |b| + 1 ensures !OccursAt(s, p, k) {
      if k + |p| <= |b| {
        assert s[k..k + |p|] == b[k..k + |p|];
        assert !OccursAt(b, p, k);
      } else {
        assert s[k..k + |p|][|b| - k] == s[|b|] == ' ';
        assert !Blank(p[|b| - k]);
      }
    }
  }

  /** A character absent from a concatenation is absent from both halves. */
  lemma AbsentFromParts(x: string, y: string, c: char)
    requires c !in x + y
    ensures c !in x && c !in y
  {
    forall i | 0 <= i < |x| ensures x[i] != c {
      assert (x + y)[i] == x[i];
    }
    forall i | 0 <= i < |y| ensures y[i] != c {
      assert (x + y)[|x| + i] == y[i];
    }
  }

  /** A pattern whose first character does not occur in `s` is not contained in `s`. */
  lemma AbsentHead(s: string, p: string)
    requires p != [] && p[0] !in s
    ensures !Contains(s, p)
  {
    var k := IndexOf(s, p);
    if k >= 0 {
      OccurrenceHead(s, p, k);
      assert false;
    }
  }

  /** The first character of a pattern occurring in `s` is a character of `s`. */
  lemma OccurrenceHead(s: string, p: string, k: int)
    ensures OccursAt(s, p, k) && p != [] ==> p[0] in s
  {
    if OccursAt(s, p, k) && p != [] {
      OccurrenceChar(s, p, k, 0);
      assert s[k] in s;
    }
  }

  /** indexOf moves past a position where the pattern does not start. */
  lemma IndexFromMiss(s: string, p: string, i: nat, j: nat)
    requires i + |p| <= |s| && j < |p| && s[i + j] != p[j]
    ensures IndexFrom(s, p, i) == IndexFrom(s, p, i + 1)
  {
    assert s[i..i + |p|][j] == s[i + j];
  }

  /** A slice of the second operand of a concatenation. */
  lemma SliceOfRight(a: string, y: string, k: nat, n: nat)
    requires k + n <= |y|
    ensures (a + y)[|a| + k..|a| + k + n] == y[k..k + n]
  {
    var r := (a + y)[|a| + k..|a| + k + n];
    forall i | 0 <= i < n ensures r[i] == y[k + i] {
      assert r[i] == (a + y)[|a| + k + i];
    }
  }

  /** What an occurrence says about single characters. */
  lemma OccurrenceChar(s: string, p: string, k: int, i: int)
    ensures OccursAt(s, p, k) && 0 <= i < |p| ==> p[i] == s[k + i]
  {
    if OccursAt(s, p, k) && 0 <= i < |p| {
      assert s[k..k + |p|][i] == s[k + i];
    }
  }
}
