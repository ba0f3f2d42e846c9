/**
 * The JavaScript string operations the backend and the track selector rely on:
 * `startsWith`, `endsWith`, `includes`, `split` and an end-anchored suffix removal.
 * Strings are sequences of characters; comparison is by character.
 */
module Text {

  /** `s.startsWith(prefix)` */
  predicate StartsWith(s: string, prefix: string) {
    prefix <= s
  }

  /** `s.endsWith(suffix)` */
  predicate EndsWith(s: string, suffix: string) {
    |suffix| <= |s| && s[|s| - |suffix|..] == suffix
  }

  /** `sub` occurs in `s` starting at index `i`. */
  predicate OccursAt(s: string, sub: string, i: int) {
    0 <= i && i + |sub| <= |s| && s[i..i + |sub|] == sub
  }

  /** `s.includes(sub)`, scanning from the left. */
  predicate Contains(s: string, sub: string)
    decreases |s|
  {
    StartsWith(s, sub) || (|s| > 0 && Contains(s[1..], sub))
  }

  /** The scan finds `sub` exactly when some position of `s` holds it. */
  lemma {:induction false} ContainsIffOccurs(s: string, sub: string)
    ensures Contains(s, sub) <==> exists i :: OccursAt(s, sub, i)
    decreases |s|
  {
    if StartsWith(s, sub) {
      assert s[0..|sub|] == sub;
      assert OccursAt(s, sub, 0);
    } else if |s| == 0 {
    } else {
      ContainsIffOccurs(s[1..], sub);
      if Contains(s[1..], sub) {
        var i :| OccursAt(s[1..], sub, i);
        assert s[1..][i..i + |sub|] == s[i + 1..i + 1 + |sub|];
        assert OccursAt(s, sub, i + 1);
      }
      if exists i :: OccursAt(s, sub, i) {
        var i :| OccursAt(s, sub, i);
        if i == 0 {
          assert false;
        }
        assert s[1..][i - 1..i - 1 + |sub|] == s[i..i + |sub|];
        assert OccursAt(s[1..], sub, i - 1);
      }
    }
  }

  /** Containing a one-character string is containing that character. */
  lemma ContainsChar(s: string, c: char)
    ensures Contains(s, [c]) <==> c in s
  {
    ContainsIffOccurs(s, [c]);
    if c in s {
      var i :| 0 <= i < |s| && s[i] == c;
      assert s[i..i + 1] == [c];
      assert OccursAt(s, [c], i);
    }
    if exists i :: OccursAt(s, [c], i) {
      var i :| OccursAt(s, [c], i);
      assert s[i] == s[i..i + 1][0];
    }
  }

  /** Containing a two-character string is having those characters side by side. */
  lemma ContainsPair(s: string, a: char, b: char)
    ensures Contains(s, [a, b]) <==> exists i :: 0 <= i < |s| - 1 && s[i] == a && s[i + 1] == b
  {
    ContainsIffOccurs(s, [a, b]);
    if exists i :: 0 <= i < |s| - 1 && s[i] == a && s[i + 1] == b {
      var i :| 0 <= i < |s| - 1 && s[i] == a && s[i + 1] == b;
      assert s[i..i + 2] == [a, b];
      assert OccursAt(s, [a, b], i);
    }
    if exists i :: OccursAt(s, [a, b], i) {
      var i :| OccursAt(s, [a, b], i);
      assert s[i] == s[i..i + 2][0] && s[i + 1] == s[i..i + 2][1];
    }
  }

  /** `s.split(sep)`: the pieces between separators, at least one piece. */
  function Split(s: string, sep: char): (parts: seq<string>)
    ensures |parts| >= 1
    ensures forall k :: 0 <= k < |parts| ==> sep !in parts[k]
    decreases |s|
  {
    if s == [] then [""]
    else
      var rest := Split(s[1..], sep);
      if s[0] == sep then [""] + rest
      else [[s[0]] + rest[0]] + rest[1..]
  }

  /** `parts.join(sep)` */
  function Join(parts: seq<string>, sep: char): string
    decreases |parts|
  {
    if |parts| <= 1 then (if parts == [] then "" else parts[0])
    else parts[0] + [sep] + Join(parts[1..], sep)
  }

  /** Splitting and joining again gives back the original string. */
  lemma {:induction false} JoinSplit(s: string, sep: char)
    ensures Join(Split(s, sep), sep) == s
    decreases |s|
  {
    if s != [] {
      JoinSplit(s[1..], sep);
      var rest := Split(s[1..], sep);
      if s[0] == sep {
        assert Split(s, sep) == [""] + rest;
        assert ([""] + rest)[1..] == rest;
      } else {
        var parts := Split(s, sep);
        assert parts == [[s[0]] + rest[0]] + rest[1..];
        if |rest| == 1 {
          assert parts == [[s[0]] + rest[0]];
        } else {
          assert parts[1..] == rest[1..];
          assert Join(rest, sep) == rest[0] + [sep] + Join(rest[1..], sep);
        }
      }
    }
  }

  /** Splitting a string with no separator gives the string back as the only piece. */
  lemma {:induction false} SplitNoSep(s: string, sep: char)
    requires sep !in s
    ensures Split(s, sep) == [s]
    decreases |s|
  {
    if s != [] {
      SplitNoSep(s[1..], sep);
      assert [s[0]] + s[1..] == s;
    }
  }

  /** Appending separator-free text only extends the last piece. */
  lemma {:induction false} SplitAppend(s: string, t: string, sep: char)
    requires sep !in t
    ensures var p := Split(s, sep); var q := Split(s + t, sep);
      |q| == |p| && q[..|q| - 1] == p[..|p| - 1] && q[|q| - 1] == p[|p| - 1] + t
    decreases |s|
  {
    if s == [] {
      assert s + t == t;
      SplitNoSep(t, sep);
    } else {
      SplitAppend(s[1..], t, sep);
      assert (s + t)[1..] == s[1..] + t;
      assert (s + t)[0] == s[0];
      var p, q := Split(s[1..], sep), Split(s[1..] + t, sep);
      if s[0] == sep {
        assert Split(s, sep) == [""] + p;
        assert Split(s + t, sep) == [""] + q;
        assert ([""] + q)[..|q|] == [""] + q[..|q| - 1];
        assert ([""] + p)[..|p|] == [""] + p[..|p| - 1];
      } else {
        assert Split(s, sep) == [[s[0]] + p[0]] + p[1..];
        assert Split(s + t, sep) == [[s[0]] + q[0]] + q[1..];
        if |p| == 1 {
          assert q[0] == p[0] + t;
        } else {
          assert q[0] == p[0];
          assert ([[s[0]] + q[0]] + q[1..])[..|q| - 1] == [[s[0]] + q[0]] + q[1..|q| - 1];
          assert ([[s[0]] + p[0]] + p[1..])[..|p| - 1] == [[s[0]] + p[0]] + p[1..|p| - 1];
          assert q[1..|q| - 1] == q[..|q| - 1][1..];
          assert p[1..|p| - 1] == p[..|p| - 1][1..];
        }
      }
    }
  }

  /** Splitting `a + [sep] + b` cuts at the inserted separator. */
  lemma {:induction false} SplitAround(a: string, b: string, sep: char)
    requires sep !in a
    ensures Split(a + [sep] + b, sep) == [a] + Split(b, sep)
    decreases |a|
  {
    if a == [] {
      assert a + [sep] + b == [sep] + b;
      assert ([sep] + b)[1..] == b;
    } else {
      SplitAround(a[1..], b, sep);
      assert (a + [sep] + b)[1..] == a[1..] + [sep] + b;
      assert [a[0]] + a[1..] == a;
    }
  }

  /** `s.split(sep).pop()`: the text after the last separator. */
  function LastPiece(s: string, sep: char): string {
    var parts := Split(s, sep);
    parts[|parts| - 1]
  }

  /** The last piece is separator-free and ends the string. */
  lemma {:induction false} LastPieceSuffix(s: string, sep: char)
    ensures sep !in LastPiece(s, sep)
    ensures EndsWith(s, LastPiece(s, sep))
    ensures LastPiece(s, sep) == s || (|s| > |LastPiece(s, sep)| && s[|s| - |LastPiece(s, sep)| - 1] == sep)
    decreases |s|
  {
    if s != [] {
      LastPieceSuffix(s[1..], sep);
      LastPieceStep(s, sep);
      var l, l' := LastPiece(s, sep), LastPiece(s[1..], sep);
      if l != s {
        assert s[|s| - |l|..] == s[1..][|s| - 1 - |l|..];
        if l' != s[1..] {
          assert s[1..][|s| - 1 - |l| - 1] == s[|s| - |l| - 1];
        }
      }
    }
  }

  /** How the last piece of `s` relates to the last piece of its tail. */
  lemma LastPieceStep(s: string, sep: char)
    requires s != []
    ensures LastPiece(s, sep) == s || LastPiece(s, sep) == LastPiece(s[1..], sep)
    ensures LastPiece(s, sep) != s && LastPiece(s[1..], sep) == s[1..] ==> s[0] == sep
  {
    var rest := Split(s[1..], sep);
    if s[0] == sep {
      assert Split(s, sep) == [""] + rest;
    } else if |rest| == 1 {
      assert Split(s, sep) == [[s[0]] + rest[0]];
      OnePiece(s[1..], sep);
      assert [s[0]] + s[1..] == s;
    } else {
      assert Split(s, sep) == [[s[0]] + rest[0]] + rest[1..];
      ManyPieces(s[1..], sep);
    }
  }

  /** A string that splits into one piece is that piece. */
  lemma OnePiece(s: string, sep: char)
    requires |Split(s, sep)| == 1
    ensures Split(s, sep)[0] == s
  {
    JoinSplit(s, sep);
  }

  /** A string that splits into several pieces is not its own last piece. */
  lemma ManyPieces(s: string, sep: char)
    requires |Split(s, sep)| > 1
    ensures LastPiece(s, sep) != s
  {
    var parts := Split(s, sep);
    JoinSplit(s, sep);
    assert s == parts[0] + [sep] + Join(parts[1..], sep);
    assert s[|parts[0]|] == sep;
  }

  /** The number of bytes UTF-8 uses for one character. */
  function CharBytes(c: char): (n: nat)
    ensures 1 <= n <= 4
    ensures n == 1 <==> c as int < 0x80
  {
    if c as int < 0x80 then 1
    else if c as int < 0x800 then 2
    else if c as int < 0x10000 then 3
    else 4
  }

  /** The length of `s` encoded as UTF-8, what a file written with `'utf8'` measures. */
  function Utf8Size(s: string): (n: nat)
    ensures |s| <= n <= 4 * |s|
    decreases |s|
  {
    if s == [] then 0 else CharBytes(s[0]) + Utf8Size(s[1..])
  }

  /** The encoded size of a concatenation is the sum of the sizes. */
  lemma {:induction false} Utf8SizeAppend(a: string, b: string)
    ensures Utf8Size(a + b) == Utf8Size(a) + Utf8Size(b)
    decreases |a|
  {
    if a != [] {
      assert (a + b)[0] == a[0];
      assert (a + b)[1..] == a[1..] + b;
      Utf8SizeAppend(a[1..], b);
    } else {
      assert a + b == b;
    }
  }

  /** A string of ASCII characters takes one byte per character. */
  lemma {:induction false} Utf8SizeAscii(s: string)
    ensures (forall i :: 0 <= i < |s| ==> s[i] as int < 0x80) <==> Utf8Size(s) == |s|
    decreases |s|
  {
    if s != [] {
      Utf8SizeAscii(s[1..]);
      if Utf8Size(s) == |s| {
        forall i | 0 <= i < |s| ensures s[i] as int < 0x80 {
          if i > 0 { assert s[i] == s[1..][i - 1]; }
        }
      }
      if forall i :: 0 <= i < |s| ==> s[i] as int < 0x80 {
        assert forall i :: 0 <= i < |s| - 1 ==> s[1..][i] == s[i + 1];
      }
    }
  }

  /** `s.replace(/<suffix>$/, '')`: drop `suffix` when `s` ends with it. */
  function StripSuffix(s: string, suffix: string): (r: string)
    ensures EndsWith(s, suffix) ==> r + suffix == s
    ensures !EndsWith(s, suffix) ==> r == s
  {
    if EndsWith(s, suffix) then s[..|s| - |suffix|] else s
  }
}
