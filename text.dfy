/** The string operations the booking page relies on: JavaScript's `<` on
    strings, `padStart`, `includes`, `toLowerCase` (ASCII only), and
    `split` / `reverse` / `join` for the list view's date display. */
module Text {

  /** JavaScript `a < b` on strings: lexicographic order of characters, a
      proper prefix sorting first. JavaScript compares UTF-16 code units,
      which order differently from Dafny's characters only outside the Basic
      Multilingual Plane; the page compares ASCII date keys only. The order
      is strict: no string is below itself. */
  predicate StrLess(a: string, b: string): (r: bool)
    ensures r ==> a != b
    decreases |a|
  {
    if |a| == 0 then |b| > 0
    else if |b| == 0 then false
    else if a[0] != b[0] then a[0] < b[0]
    else StrLess(a[1..], b[1..])
  }

  /** Comparing two strings whose first parts have the same length compares
      the first parts, and only when those are equal, the rest. */
  lemma {:induction false} StrLessConcat(a1: string, b1: string, a2: string, b2: string)
    requires |a1| == |a2|
    ensures StrLess(a1 + b1, a2 + b2) == if a1 == a2 then StrLess(b1, b2) else StrLess(a1, a2)
    decreases |a1|
  {
    if |a1| == 0 {
      assert a1 + b1 == b1 && a2 + b2 == b2;
    } else {
      assert (a1 + b1)[0] == a1[0] && (a2 + b2)[0] == a2[0];
      assert (a1 + b1)[1..] == a1[1..] + b1 && (a2 + b2)[1..] == a2[1..] + b2;
      if a1[0] == a2[0] {
        StrLessConcat(a1[1..], b1, a2[1..], b2);
        assert a1 == a2 <==> a1[1..] == a2[1..] by {
          if a1[1..] == a2[1..] {
            assert a1 == [a1[0]] + a1[1..] && a2 == [a2[0]] + a2[1..];
          }
        }
      }
    }
  }

  function Pow10(w: nat): (p: nat)
    ensures p >= 1
  {
    if w == 0 then 1 else 10 * Pow10(w - 1)
  }

  /** The character of a decimal digit. */
  function Digit(n: nat): (c: char)
    requires n < 10
    ensures '0' <= c <= '9'
  {
    (n + '0' as int) as char
  }

  /** `String(n).padStart(w, "0")` for a number that has at most `w` digits:
      exactly `w` decimal digits, most significant first. */
  function Pad(n: nat, w: nat): (s: string)
    requires n < Pow10(w)
    ensures |s| == w
    ensures forall i :: 0 <= i < |s| ==> '0' <= s[i] <= '9'
  {
    if w == 0 then [] else Pad(n / 10, w - 1) + [Digit(n % 10)]
  }

  /** Zero-padded numbers of the same width compare as strings exactly as
      they compare as numbers, and only equal numbers give equal strings. */
  lemma {:induction false} PadOrder(p: nat, q: nat, w: nat)
    requires p < Pow10(w) && q < Pow10(w)
    ensures StrLess(Pad(p, w), Pad(q, w)) <==> p < q
    ensures Pad(p, w) == Pad(q, w) <==> p == q
  {
    if w == 0 {
      assert p == 0 && q == 0;
    } else {
      var hp, hq := Pad(p / 10, w - 1), Pad(q / 10, w - 1);
      var lp, lq := [Digit(p % 10)], [Digit(q % 10)];
      PadOrder(p / 10, q / 10, w - 1);
      StrLessConcat(hp, lp, hq, lq);
      assert StrLess(lp, lq) <==> p % 10 < q % 10 by {
        assert lp[1..] == [] && lq[1..] == [];
      }
      assert hp + lp == hq + lq <==> hp == hq && lp == lq by {
        if hp + lp == hq + lq {
          assert (hp + lp)[..w - 1] == hp && (hq + lq)[..w - 1] == hq;
          assert (hp + lp)[w - 1] == lp[0] && (hq + lq)[w - 1] == lq[0];
        }
      }
      assert p == 10 * (p / 10) + p % 10 && q == 10 * (q / 10) + q % 10;
    }
  }

  /** `c.toLowerCase()` for ASCII letters; every other character is kept. */
  function LowerChar(c: char): char
  {
    if 'A' <= c <= 'Z' then (c as int + 32) as char else c
  }

  /** `s.toLowerCase()`, restricted to ASCII case folding: no upper-case
      ASCII letter is left, and only those letters change, each to its
      lower-case form. */
  function ToLower(s: string): (r: string)
    ensures |r| == |s|
    ensures forall i :: 0 <= i < |r| ==> !('A' <= r[i] <= 'Z')
    ensures forall i :: 0 <= i < |r| ==> r[i] == s[i] || ('A' <= s[i] <= 'Z' && r[i] as int == s[i] as int + 32)
  {
    if |s| == 0 then [] else [LowerChar(s[0])] + ToLower(s[1..])
  }

  /** `t` occurs in `s` starting at position `i`. */
  predicate OccursAt(s: string, t: string, i: nat)
  {
    i + |t| <= |s| && s[i..i + |t|] == t
  }

  /** `t` occurs in `s` at some position. */
  ghost predicate HasSubstring(s: string, t: string)
  {
    exists i: nat :: OccursAt(s, t, i)
  }

  predicate StartsWith(s: string, t: string)
  {
    |t| <= |s| && s[..|t|] == t
  }

  /** `s.includes(t)`: try every start position from the left. The empty
      string is in every string, and nothing longer than `s` is in `s`. */
  predicate Includes(s: string, t: string): (r: bool)
    ensures |t| == 0 ==> r
    ensures r ==> |t| <= |s|
    decreases |s|
  {
    StartsWith(s, t) || (|s| > 0 && Includes(s[1..], t))
  }

  lemma {:induction false} IncludesIsSubstring(s: string, t: string)
    ensures Includes(s, t) <==> HasSubstring(s, t)
    decreases |s|
  {
    if StartsWith(s, t) {
      assert OccursAt(s, t, 0) by { assert s[0..|t|] == s[..|t|]; }
    } else if |s| == 0 {
      assert forall i: nat :: !OccursAt(s, t, i);
    } else {
      IncludesIsSubstring(s[1..], t);
      assert Includes(s, t) == Includes(s[1..], t);
      forall i: nat
        ensures OccursAt(s, t, i + 1) <==> OccursAt(s[1..], t, i)
      {
        if i + 1 + |t| <= |s| {
          assert s[1..][i..i + |t|] == s[i + 1..i + 1 + |t|];
        }
      }
      assert !OccursAt(s, t, 0) by { if |t| <= |s| { assert s[0..|t|] == s[..|t|]; } }
      if HasSubstring(s, t) {
        var i: nat :| OccursAt(s, t, i);
        assert OccursAt(s[1..], t, i - 1);
      }
      if HasSubstring(s[1..], t) {
        var i: nat :| OccursAt(s[1..], t, i);
        assert OccursAt(s, t, i + 1);
      }
    }
  }

  /** `s.split(sep)` for a one-character separator: the pieces between
      separators, always at least one. */
  function Split(s: string, sep: char): (parts: seq<string>)
    ensures |parts| >= 1
    ensures forall i :: 0 <= i < |parts| ==> sep !in parts[i]
    decreases |s|
  {
    if |s| == 0 then [""]
    else
      var rest := Split(s[1..], sep);
      if s[0] == sep then [""] + rest else [[s[0]] + rest[0]] + rest[1..]
  }

  /** `parts.join(sep)`. */
  function Join(parts: seq<string>, sep: char): string
  {
    if |parts| == 0 then ""
    else if |parts| == 1 then parts[0]
    else parts[0] + [sep] + Join(parts[1..], sep)
  }

  /** A character that is neither the separator nor in any part is not in
      the joined string. */
  lemma {:induction false} JoinAvoids(parts: seq<string>, sep: char, c: char)
    requires c != sep && forall i :: 0 <= i < |parts| ==> c !in parts[i]
    ensures c !in Join(parts, sep)
    decreases |parts|
  {
    if |parts| > 1 {
      JoinAvoids(parts[1..], sep, c);
    }
  }

  /** `parts.reverse()`. */
  function Reverse<T>(parts: seq<T>): (r: seq<T>)
    ensures |r| == |parts|
    ensures forall i :: 0 <= i < |r| ==> r[i] == parts[|parts| - 1 - i]
  {
    if |parts| == 0 then [] else Reverse(parts[1..]) + [parts[0]]
  }

  /** Splitting and joining again on the same separator gives back the
      original string. */
  lemma {:induction false} JoinSplit(s: string, sep: char)
    ensures Join(Split(s, sep), sep) == s
    decreases |s|
  {
    if |s| > 0 {
      var rest := Split(s[1..], sep);
      JoinSplit(s[1..], sep);
      if s[0] == sep {
        assert ([""] + rest)[1..] == rest;
      } else {
        var parts := [[s[0]] + rest[0]] + rest[1..];
        if |rest| == 1 {
          assert Join(parts, sep) == [s[0]] + rest[0];
        } else {
          assert parts[1..] == rest[1..];
          assert Join(rest, sep) == rest[0] + [sep] + Join(rest[1..], sep);
        }
      }
      assert s == [s[0]] + s[1..];
    }
  }

  /** A piece without the separator, followed by the separator, splits off as
      its own first part. */
  lemma {:induction false} SplitAfterPiece(a: string, b: string, sep: char)
    requires sep !in a
    ensures Split(a + [sep] + b, sep) == [a] + Split(b, sep)
    decreases |a|
  {
    var s := a + [sep] + b;
    if |a| == 0 {
      assert s[0] == sep && s[1..] == b;
    } else {
      assert s[0] == a[0] && s[1..] == a[1..] + [sep] + b;
      SplitAfterPiece(a[1..], b, sep);
      assert [a[0]] + a[1..] == a;
    }
  }

  /** A string without the separator splits into itself alone. */
  lemma {:induction false} SplitWhole(a: string, sep: char)
    requires sep !in a
    ensures Split(a, sep) == [a]
    decreases |a|
  {
    if |a| > 0 {
      SplitWhole(a[1..], sep);
      assert [a[0]] + a[1..] == a;
    }
  }
}
