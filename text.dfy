/**
 * Character classes and string splitting as JavaScript performs them in the
 * keyword pipeline: the regular-expression classes `\s` and `\w` (without the
 * `u` flag), the Hangul syllable range, `String.prototype.split(/\s+/)` and
 * `String.prototype.split(' ')`.
 */
module Text {

  /** JavaScript's `\s`: the WhiteSpace and LineTerminator code points of ECMA-262. */
  predicate IsJsSpace(c: char) {
    || c == '\t' || c == '\n' || c == '\U{000B}' || c == '\U{000C}' || c == '\r'
    || c == ' ' || c == '\U{00A0}' || c == '\U{1680}'
    || ('\U{2000}' <= c <= '\U{200A}')
    || c == '\U{2028}' || c == '\U{2029}' || c == '\U{202F}' || c == '\U{205F}'
    || c == '\U{3000}' || c == '\U{FEFF}'
  }

  predicate IsAsciiLetter(c: char) {
    ('a' <= c <= 'z') || ('A' <= c <= 'Z')
  }

  predicate IsAsciiDigit(c: char) {
    '0' <= c <= '9'
  }

  /** JavaScript's `\w` without the `u` and `i` flags: `[A-Za-z0-9_]`. */
  predicate IsWordChar(c: char) {
    IsAsciiLetter(c) || IsAsciiDigit(c) || c == '_'
  }

  /** The character range `가-힣` (U+AC00 to U+D7A3), the precomposed Hangul syllables. */
  predicate IsHangulSyllable(c: char) {
    '가' <= c <= '힣'
  }

  /** Every character of `s` is outside JavaScript's `\s`. */
  predicate NoSpace(s: string) {
    forall i :: 0 <= i < |s| ==> !IsJsSpace(s[i])
  }

  /** The characters of `s` that are not in `\s`, in order. */
  function RemoveSpaces(s: string): string {
    if s == [] then []
    else if IsJsSpace(s[0]) then RemoveSpaces(s[1..])
    else [s[0]] + RemoveSpaces(s[1..])
  }

  /** The pieces laid end to end. */
  function Concat(ps: seq<string>): string {
    if ps == [] then [] else ps[0] + Concat(ps[1..])
  }

  /**
   * `s.split(/\s+/)`: the pieces between maximal runs of `\s`. A leading run
   * yields an empty first piece, a trailing run an empty last piece, and the
   * empty string yields one empty piece.
   */
  function SplitOnSpaceRuns(s: string): (r: seq<string>)
    ensures |r| >= 1
  {
    if s == [] then [[]]
    else
      var rest := SplitOnSpaceRuns(s[1..]);
      if IsJsSpace(s[0]) then
        if |s| > 1 && IsJsSpace(s[1]) then rest else [[]] + rest
      else
        [[s[0]] + rest[0]] + rest[1..]
  }

  /** The pieces hold no `\s` and, laid end to end, are the string without its `\s` characters. */
  lemma {:induction false} SplitOnSpaceRunsContent(s: string)
    ensures forall i :: 0 <= i < |SplitOnSpaceRuns(s)| ==> NoSpace(SplitOnSpaceRuns(s)[i])
    ensures Concat(SplitOnSpaceRuns(s)) == RemoveSpaces(s)
  {
    if s != [] {
      var rest := SplitOnSpaceRuns(s[1..]);
      SplitOnSpaceRunsContent(s[1..]);
      if !IsJsSpace(s[0]) {
        var r := SplitOnSpaceRuns(s);
        assert r[1..] == rest[1..];
        assert Concat(rest) == rest[0] + Concat(rest[1..]);
        assert Concat(r) == r[0] + Concat(r[1..]);
        forall i | 0 <= i < |r| ensures NoSpace(r[i]) {
          if i == 0 {
            assert NoSpace(rest[0]);
          } else {
            assert r[i] == rest[i];
          }
        }
      }
    }
  }

  /**
   * Only the first and the last piece can be empty, the first exactly when the
   * string is empty or starts with `\s`, the last exactly when it is empty or
   * ends with `\s`.
   */
  lemma {:induction false} SplitOnSpaceRunsShape(s: string)
    ensures s != [] && IsJsSpace(s[0]) ==> |SplitOnSpaceRuns(s)| >= 2
    ensures SplitOnSpaceRuns(s)[0] == [] <==> s == [] || IsJsSpace(s[0])
    ensures SplitOnSpaceRuns(s)[|SplitOnSpaceRuns(s)| - 1] == [] <==> s == [] || IsJsSpace(s[|s| - 1])
    ensures forall i :: 0 < i < |SplitOnSpaceRuns(s)| - 1 ==> SplitOnSpaceRuns(s)[i] != []
  {
    if s != [] {
      var r, rest := SplitOnSpaceRuns(s), SplitOnSpaceRuns(s[1..]);
      SplitOnSpaceRunsShape(s[1..]);
      if !IsJsSpace(s[0]) {
        assert r[1..] == rest[1..];
        forall i | 0 < i < |r| - 1 ensures r[i] != [] {
          assert r[i] == rest[i];
        }
      }
    }
  }

  /** Every character of a piece is a character of the string, and not `\s`. */
  lemma {:induction false} SplitOnSpaceRunsChars(s: string)
    ensures forall i, j :: 0 <= i < |SplitOnSpaceRuns(s)| && 0 <= j < |SplitOnSpaceRuns(s)[i]| ==>
      SplitOnSpaceRuns(s)[i][j] in s && !IsJsSpace(SplitOnSpaceRuns(s)[i][j])
  {
    if s != [] {
      var r, rest := SplitOnSpaceRuns(s), SplitOnSpaceRuns(s[1..]);
      SplitOnSpaceRunsChars(s[1..]);
      forall i, j | 0 <= i < |r| && 0 <= j < |r[i]| ensures r[i][j] in s && !IsJsSpace(r[i][j]) {
        if IsJsSpace(s[0]) {
          if !(|s| > 1 && IsJsSpace(s[1])) && i > 0 {
            assert r[i] == rest[i - 1];
          }
          assert r[i][j] in s[1..];
        } else if i == 0 {
          if j > 0 {
            assert r[0][j] == rest[0][j - 1];
            assert r[i][j] in s[1..];
          }
        } else {
          assert r[i] == rest[i];
          assert r[i][j] in s[1..];
        }
      }
    }
  }

  /** The nonempty pieces, in order. */
  function NonEmpty(ps: seq<string>): seq<string> {
    if ps == [] then [] else (if ps[0] == [] then [] else [ps[0]]) + NonEmpty(ps[1..])
  }

  lemma {:induction false} NonEmptyAppend(a: seq<string>, b: seq<string>)
    ensures NonEmpty(a + b) == NonEmpty(a) + NonEmpty(b)
  {
    if a == [] {
      assert a + b == b;
    } else {
      assert (a + b)[1..] == a[1..] + b;
      NonEmptyAppend(a[1..], b);
    }
  }

  /** Two lists of pieces with the same first piece keep a relation between the nonempty pieces after it. */
  lemma NonEmptySameHead(r: seq<string>, ra: seq<string>, rb: seq<string>)
    requires |r| >= 1 && |ra| >= 1 && r[0] == ra[0]
    requires NonEmpty(r[1..]) == NonEmpty(ra[1..]) + NonEmpty(rb)
    ensures NonEmpty(r) == NonEmpty(ra) + NonEmpty(rb)
  {
    var x, y := NonEmpty(ra[1..]), NonEmpty(rb);
    if r[0] == [] {
      assert NonEmpty(r) == NonEmpty(r[1..]);
      assert NonEmpty(ra) == x;
    } else {
      var c := r[0];
      assert NonEmpty(r) == [c] + (x + y);
      assert NonEmpty(ra) == [c] + x;
      AppendAssoc([c], x, y);
    }
  }

  /** Concatenation is associative (stated on its own, since proving it among many sequence facts is slow). */
  lemma AppendAssoc<T>(a: seq<T>, b: seq<T>, c: seq<T>)
    ensures a + (b + c) == (a + b) + c
  {
  }

  /** Splitting two strings joined by a `\s` character: the first piece is the first piece of the left string. */
  lemma {:induction false} SplitOnSpaceRunsHead(a: string, sep: char, b: string)
    requires IsJsSpace(sep)
    ensures SplitOnSpaceRuns(a + [sep] + b)[0] == SplitOnSpaceRuns(a)[0]
  {
    var s := a + [sep] + b;
    if a == [] {
      assert s == [sep] + b && s[1..] == b;
      if b != [] && IsJsSpace(b[0]) {
        SplitOnSpaceRunsShape(b);
      }
    } else {
      var a' := a[1..];
      assert s[1..] == a' + [sep] + b;
      SplitOnSpaceRunsHead(a', sep, b);
      if IsJsSpace(a[0]) {
        if a' == [] {
          assert s[1] == sep;
        } else {
          assert s[1] == a'[0];
        }
      }
    }
  }

  /**
   * Splitting two strings joined by a `\s` character: the nonempty pieces
   * after the first are those of the left string followed by those of the
   * right one.
   */
  lemma {:induction false} SplitOnSpaceRunsAround(a: string, sep: char, b: string)
    requires IsJsSpace(sep)
    ensures NonEmpty(SplitOnSpaceRuns(a + [sep] + b)[1..]) == NonEmpty(SplitOnSpaceRuns(a)[1..]) + NonEmpty(SplitOnSpaceRuns(b))
  {
    var s := a + [sep] + b;
    if a == [] {
      assert s == [sep] + b && s[1..] == b;
      var rb := SplitOnSpaceRuns(b);
      if b != [] && IsJsSpace(b[0]) {
        SplitOnSpaceRunsShape(b);
        assert rb == [rb[0]] + rb[1..];
      }
    } else {
      var a' := a[1..];
      assert s[1..] == a' + [sep] + b;
      SplitOnSpaceRunsAround(a', sep, b);
      var rest, ra := SplitOnSpaceRuns(a' + [sep] + b), SplitOnSpaceRuns(a');
      if IsJsSpace(a[0]) {
        if a' == [] {
          assert s[1] == sep;
          assert SplitOnSpaceRuns(a) == [[]] + ra;
        } else if !IsJsSpace(a'[0]) {
          assert s[1] == a'[0];
          SplitOnSpaceRunsHead(a', sep, b);
          NonEmptySameHead(rest, ra, SplitOnSpaceRuns(b));
        } else {
          assert s[1] == a'[0];
        }
      }
    }
  }

  /** `(a + sep + b).split(/\s+/)` holds the nonempty pieces of `a` and then those of `b`. */
  lemma SplitOnSpaceRunsAppend(a: string, sep: char, b: string)
    requires IsJsSpace(sep)
    ensures NonEmpty(SplitOnSpaceRuns(a + [sep] + b)) == NonEmpty(SplitOnSpaceRuns(a)) + NonEmpty(SplitOnSpaceRuns(b))
  {
    var r, ra := SplitOnSpaceRuns(a + [sep] + b), SplitOnSpaceRuns(a);
    SplitOnSpaceRunsHead(a, sep, b);
    SplitOnSpaceRunsAround(a, sep, b);
    NonEmptySameHead(r, ra, SplitOnSpaceRuns(b));
  }

  /**
   * A text without `\s` is not cut at all: it is its own single piece. With
   * `SplitOnSpaceRunsAppend` this fixes every nonempty piece, since cuts fall
   * only at `\s` characters.
   */
  lemma {:induction false} SplitOnSpaceRunsWord(s: string)
    requires s != [] && NoSpace(s)
    ensures SplitOnSpaceRuns(s) == [s]
  {
    assert !IsJsSpace(s[0]);
    if |s| == 1 {
      var rest := SplitOnSpaceRuns(s[1..]);
      assert rest == [[]] && rest[1..] == [];
      assert [s[0]] + rest[0] == s;
    } else {
      assert NoSpace(s[1..]) by {
        forall i | 0 <= i < |s[1..]| ensures !IsJsSpace(s[1..][i]) {
          assert s[1..][i] == s[i + 1];
        }
      }
      var rest := SplitOnSpaceRuns(s[1..]);
      SplitOnSpaceRunsWord(s[1..]);
      assert rest[0] == s[1..] && rest[1..] == [];
      assert [s[0]] + s[1..] == s;
    }
  }

  /** `s.split(sep)` for a one-character separator: the pieces between occurrences of `sep`. */
  function SplitOn(s: string, sep: char): (r: seq<string>)
    ensures |r| >= 1
  {
    if s == [] then [[]]
    else
      var rest := SplitOn(s[1..], sep);
      if s[0] == sep then [[]] + rest
      else [[s[0]] + rest[0]] + rest[1..]
  }

  /** `ps.join(sep)`. */
  function Join(ps: seq<string>, sep: char): string
    requires |ps| >= 1
  {
    if |ps| == 1 then ps[0] else ps[0] + [sep] + Join(ps[1..], sep)
  }

  /** Splitting on a separator yields one more piece than there are separators, none holding it. */
  lemma {:induction false} SplitOnPieces(s: string, sep: char)
    ensures |SplitOn(s, sep)| == multiset(s)[sep] + 1
    ensures forall i :: 0 <= i < |SplitOn(s, sep)| ==> sep !in SplitOn(s, sep)[i]
  {
    if s != [] {
      var r, rest := SplitOn(s, sep), SplitOn(s[1..], sep);
      SplitOnPieces(s[1..], sep);
      assert s == [s[0]] + s[1..];
      if s[0] != sep {
        assert r[1..] == rest[1..];
        forall i | 0 <= i < |r| ensures sep !in r[i] {
          if i > 0 {
            assert r[i] == rest[i];
          }
        }
      }
    }
  }

  /** Joining the pieces with the separator gives back the string. */
  lemma {:induction false} SplitOnJoin(s: string, sep: char)
    ensures Join(SplitOn(s, sep), sep) == s
  {
    if s != [] {
      var r, rest := SplitOn(s, sep), SplitOn(s[1..], sep);
      SplitOnJoin(s[1..], sep);
      if s[0] != sep {
        assert r[1..] == rest[1..];
        if |rest| > 1 {
          assert Join(rest, sep) == rest[0] + [sep] + Join(rest[1..], sep);
        }
      }
    }
  }

  /** Every character of a piece is a character of the string. */
  lemma {:induction false} SplitOnChars(s: string, sep: char)
    ensures forall i, j :: 0 <= i < |SplitOn(s, sep)| && 0 <= j < |SplitOn(s, sep)[i]| ==> SplitOn(s, sep)[i][j] in s
  {
    if s != [] {
      var r, rest := SplitOn(s, sep), SplitOn(s[1..], sep);
      SplitOnChars(s[1..], sep);
      forall i, j | 0 <= i < |r| && 0 <= j < |r[i]| ensures r[i][j] in s {
        if s[0] == sep {
          assert r[i] == rest[i - 1];
          assert r[i][j] in s[1..];
        } else if i == 0 {
          if j > 0 {
            assert r[0][j] == rest[0][j - 1];
            assert r[i][j] in s[1..];
          }
        } else {
          assert r[i] == rest[i];
          assert r[i][j] in s[1..];
        }
      }
    }
  }
}
