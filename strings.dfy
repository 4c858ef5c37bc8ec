/**
 * The Python string operations the cookie finder relies on: str.split with a
 * one-character separator, the slice s[-n:], the comparison < between two
 * strings, and int() restricted to ASCII decimal digits.
 */
module Strings {
  import opened Tally

  /** The separators put back between the parts: the inverse of Split. */
  function Join(parts: seq<string>, sep: char): string
  {
    if |parts| == 0 then ""
    else if |parts| == 1 then parts[0]
    else parts[0] + [sep] + Join(parts[1..], sep)
  }

  /**
   * s.split(sep): the maximal pieces of s between separators, empty pieces
   * included.
   */
  function Split(s: string, sep: char): (parts: seq<string>)
    ensures |parts| > 0
    ensures forall i :: 0 <= i < |parts| ==> sep !in parts[i]
  {
    if |s| == 0 then [""]
    else
      var rest := Split(s[1..], sep);
      if s[0] == sep then [""] + rest
      else [[s[0]] + rest[0]] + rest[1..]
  }

  /** There is always one more piece than there are separators. */
  lemma {:induction false} SplitCount(s: string, sep: char)
    ensures |Split(s, sep)| == Count(s, sep) + 1
  {
    if |s| > 0 {
      assert s == [s[0]] + s[1..];
      SplitCount(s[1..], sep);
    }
  }

  /** Joining the pieces of s with the separator gives s back. */
  lemma {:induction false} JoinSplit(s: string, sep: char)
    ensures Join(Split(s, sep), sep) == s
  {
    if |s| > 0 {
      var c, tail := s[0], s[1..];
      assert s == [c] + tail;
      SplitCons(c, tail, sep);
      JoinCons(c, Split(tail, sep), sep);
      JoinSplit(tail, sep);
    }
  }

  /** How Split treats the first character. */
  lemma SplitCons(c: char, tail: string, sep: char)
    ensures Split([c] + tail, sep) ==
            if c == sep then [""] + Split(tail, sep)
            else [[c] + Split(tail, sep)[0]] + Split(tail, sep)[1..]
  {
    assert ([c] + tail)[1..] == tail;
  }

  /** Joining pieces whose first character was split off as Split does it. */
  lemma JoinCons(c: char, parts: seq<string>, sep: char)
    requires |parts| > 0
    ensures Join(if c == sep then [""] + parts else [[c] + parts[0]] + parts[1..], sep) == [c] + Join(parts, sep)
  {
    if c == sep {
      assert ([""] + parts)[1..] == parts;
    } else {
      JoinExtendFirst(c, parts, sep);
    }
  }

  /** Gluing a character to the front of the first piece glues it to the front of the join. */
  lemma JoinExtendFirst(c: char, parts: seq<string>, sep: char)
    requires |parts| > 0
    ensures Join([[c] + parts[0]] + parts[1..], sep) == [c] + Join(parts, sep)
  {
    var ext := [[c] + parts[0]] + parts[1..];
    if |parts| > 1 {
      var j := Join(parts[1..], sep);
      assert ext[1..] == parts[1..];
      assert ([c] + parts[0]) + [sep] + j == [c] + (parts[0] + [sep] + j);
    }
  }

  /** Splitting a string that starts with a separator-free piece a. */
  lemma {:induction false} SplitAfterPiece(a: string, t: string, sep: char)
    requires sep !in a
    ensures Split(a + t, sep) == [a + Split(t, sep)[0]] + Split(t, sep)[1..]
  {
    var r := Split(t, sep);
    if |a| > 0 {
      var c, rest := a[0], a[1..];
      var q := Split(rest + t, sep);
      calc {
        Split(a + t, sep);
        { assert a + t == [c] + (rest + t); }
        Split([c] + (rest + t), sep);
        { assert c in a;
          SplitCons(c, rest + t, sep); }
        [[c] + q[0]] + q[1..];
        { SplitAfterPiece(rest, t, sep);
          assert q == [rest + r[0]] + r[1..];
          assert q[0] == rest + r[0] && q[1..] == r[1..]; }
        [[c] + (rest + r[0])] + r[1..];
        { assert a == [c] + rest;
          assert [c] + (rest + r[0]) == a + r[0]; }
        [a + r[0]] + r[1..];
      }
    } else {
      assert a + t == t && a + r[0] == r[0];
      assert r == [r[0]] + r[1..];
    }
  }

  /** Split recovers the pieces that Join glued together. */
  lemma {:induction false} SplitJoin(parts: seq<string>, sep: char)
    requires |parts| > 0
    requires forall i :: 0 <= i < |parts| ==> sep !in parts[i]
    ensures Split(Join(parts, sep), sep) == parts
  {
    if |parts| == 1 {
      SplitAfterPiece(parts[0], "", sep);
      assert parts[0] + "" == parts[0];
    } else {
      var rest := parts[1..];
      SplitJoin(rest, sep);
      var j := Join(rest, sep);
      assert Join(parts, sep) == parts[0] + ([sep] + j);
      SplitAfterPiece(parts[0], [sep] + j, sep);
      assert ([sep] + j)[1..] == j;
      assert parts[0] + "" == parts[0];
      assert parts == [parts[0]] + rest;
    }
  }

  /** Splitting into two pieces happens exactly at the one separator. */
  lemma SplitInTwo(s: string, sep: char, left: string, right: string)
    ensures Split(s, sep) == [left, right] <==> sep !in left && sep !in right && s == left + [sep] + right
  {
    if sep !in left && sep !in right && s == left + [sep] + right {
      SplitJoin([left, right], sep);
      assert Join([left, right], sep) == left + [sep] + right;
    }
    if Split(s, sep) == [left, right] {
      JoinSplit(s, sep);
      assert Join([left, right], sep) == left + [sep] + Join([right], sep);
    }
  }

  /** s[-n:] for n > 0: the last n characters, or all of s when it is shorter. */
  function TakeLast(s: string, n: nat): (r: string)
    requires n > 0
    ensures |r| == if |s| < n then |s| else n
    ensures s == s[..|s| - |r|] + r
  {
    if |s| <= n then s else s[|s| - n..]
  }

  /**
   * a < b on Python strings: code point by code point; at the first
   * difference the smaller character wins, and a proper prefix is smaller.
   */
  predicate Less(a: string, b: string)
    ensures Less(a, b) ==> a != b
  {
    if |a| == 0 then |b| > 0
    else if |b| == 0 then false
    else if a[0] != b[0] then a[0] < b[0]
    else Less(a[1..], b[1..])
  }

  /** Less is the lexicographic order: a proper prefix, or a smaller character at the first difference. */
  lemma {:induction false} LessIsLexicographic(a: string, b: string)
    ensures Less(a, b) <==> a < b || exists k :: 0 <= k < |a| && k < |b| && a[..k] == b[..k] && a[k] < b[k]
  {
    if |a| > 0 && |b| > 0 {
      LessIsLexicographic(a[1..], b[1..]);
      if a[0] == b[0] {
        if a[1..] < b[1..] {
          assert a == [a[0]] + a[1..] && b == [b[0]] + b[1..];
        }
        if a < b {
          assert a[1..] < b[1..];
        }
        if k :| 0 <= k < |a[1..]| && k < |b[1..]| && a[1..][..k] == b[1..][..k] && a[1..][k] < b[1..][k] {
          assert a[..k + 1] == [a[0]] + a[1..][..k];
          assert b[..k + 1] == [b[0]] + b[1..][..k];
          assert a[k + 1] < b[k + 1];
        }
        if k :| 0 <= k < |a| && k < |b| && a[..k] == b[..k] && a[k] < b[k] {
          assert k > 0;
          assert a[1..][..k - 1] == a[..k][1..];
          assert b[1..][..k - 1] == b[..k][1..];
          assert a[1..][k - 1] < b[1..][k - 1];
        }
      } else {
        if a[0] < b[0] {
          assert a[..0] == b[..0];
        }
      }
    }
  }

  lemma {:induction false} LessTransitive(a: string, b: string, c: string)
    requires Less(a, b) && Less(b, c)
    ensures Less(a, c)
  {
    if |a| > 0 && a[0] == b[0] && b[0] == c[0] {
      LessTransitive(a[1..], b[1..], c[1..]);
    }
  }

  /** Any two different strings are ordered one way or the other. */
  lemma {:induction false} LessTotal(a: string, b: string)
    requires a != b
    ensures Less(a, b) || Less(b, a)
  {
    if |a| > 0 && |b| > 0 && a[0] == b[0] {
      assert a == [a[0]] + a[1..] && b == [b[0]] + b[1..];
      LessTotal(a[1..], b[1..]);
    }
  }

  predicate IsDigit(c: char)
  {
    '0' <= c <= '9'
  }

  /** A non-empty run of ASCII decimal digits. */
  predicate IsDigits(s: string)
  {
    |s| > 0 && forall i :: 0 <= i < |s| ==> IsDigit(s[i])
  }

  function Pow10(n: nat): (p: nat)
    ensures p > 0
  {
    if n == 0 then 1 else 10 * Pow10(n - 1)
  }

  /** int(s) for a string of ASCII digits. */
  function DigitsValue(s: string): (v: nat)
    requires forall i :: 0 <= i < |s| ==> IsDigit(s[i])
    ensures v < Pow10(|s|)
  {
    if |s| == 0 then 0
    else
      var high := DigitsValue(s[..|s| - 1]);
      var d := s[|s| - 1] as int - '0' as int;
      assert IsDigit(s[|s| - 1]);
      assert 0 <= d < 10;
      assert high * 10 <= (Pow10(|s| - 1) - 1) * 10;
      high * 10 + d
  }

  /** n written with exactly w digits, padded with leading zeros (the last w digits if n is wider). */
  function ZeroPadded(n: nat, w: nat): (s: string)
    ensures |s| == w && forall i :: 0 <= i < |s| ==> IsDigit(s[i])
  {
    if w == 0 then ""
    else ZeroPadded(n / 10, w - 1) + [('0' as int + n % 10) as char]
  }

  /** Reading back a zero-padded number gives the number when it fits. */
  lemma {:induction false} DigitsValueZeroPadded(n: nat, w: nat)
    requires n < Pow10(w)
    ensures DigitsValue(ZeroPadded(n, w)) == n
  {
    if w > 0 {
      var s := ZeroPadded(n, w);
      assert s[..w - 1] == ZeroPadded(n / 10, w - 1);
      DigitsValueZeroPadded(n / 10, w - 1);
    }
  }

  /** Writing back a digit string at its own width gives the string. */
  lemma {:induction false} ZeroPaddedDigitsValue(s: string)
    requires forall i :: 0 <= i < |s| ==> IsDigit(s[i])
    ensures ZeroPadded(DigitsValue(s), |s|) == s
  {
    if |s| > 0 {
      var p := s[..|s| - 1];
      var d := s[|s| - 1] as int - '0' as int;
      ZeroPaddedDigitsValue(p);
      assert (DigitsValue(p) * 10 + d) / 10 == DigitsValue(p);
      assert (DigitsValue(p) * 10 + d) % 10 == d;
      assert s == p + [s[|s| - 1]];
    }
  }
}
