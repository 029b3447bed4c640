/**
 * The two JavaScript string operations the import parser relies on:
 * `split` with a one-character separator and `trim`.
 */
module Text {

  /** The characters `String.prototype.trim` removes: white space and line terminators. */
  predicate IsWhitespace(c: char) {
    || c == ' ' || c == '\t' || c == '\n' || c == '\r'
    || c == '\U{000B}' || c == '\U{000C}' || c == '\U{00A0}' || c == '\U{1680}'
    || ('\U{2000}' <= c <= '\U{200A}')
    || c == '\U{2028}' || c == '\U{2029}' || c == '\U{202F}' || c == '\U{205F}'
    || c == '\U{3000}' || c == '\U{FEFF}'
  }

  /** The pieces of `s` between occurrences of `sep`, as `s.split(sep)`. */
  function Split(s: string, sep: char): (r: seq<string>)
    ensures |r| >= 1
  {
    if s == [] then [""]
    else
      var rest := Split(s[1..], sep);
      if s[0] == sep then [""] + rest
      else [[s[0]] + rest[0]] + rest[1..]
  }

  /** The pieces glued back together with `sep` between them, as `parts.join(sep)`. */
  function Join(parts: seq<string>, sep: char): string {
    if |parts| == 0 then ""
    else if |parts| == 1 then parts[0]
    else parts[0] + [sep] + Join(parts[1..], sep)
  }

  /** Position of the first `sep` in `s`, or `|s|` when there is none. */
  function IndexOf(s: string, sep: char): (k: nat)
    ensures k <= |s|
    ensures sep !in s[..k]
    ensures k < |s| ==> s[k] == sep
  {
    if s == [] || s[0] == sep then 0
    else
      var k := 1 + IndexOf(s[1..], sep);
      assert s[..k] == [s[0]] + s[1..][..k - 1];
      k
  }

  /** `s` without its leading white space. */
  function TrimStart(s: string): (r: string)
    ensures |r| <= |s| && r == s[|s| - |r|..]
    ensures forall k | 0 <= k < |s| - |r| :: IsWhitespace(s[k])
    ensures r != [] ==> !IsWhitespace(r[0])
  {
    if s != [] && IsWhitespace(s[0]) then
      var r := TrimStart(s[1..]);
      assert s[1..][|s| - 1 - |r|..] == s[|s| - |r|..];
      assert forall k | 1 <= k < |s| - |r| :: s[k] == s[1..][k - 1];
      r
    else s
  }

  /** `s` without its trailing white space. */
  function TrimEnd(s: string): (r: string)
    ensures |r| <= |s| && r == s[..|r|]
    ensures forall k | |r| <= k < |s| :: IsWhitespace(s[k])
    ensures r != [] ==> !IsWhitespace(r[|r| - 1])
  {
    if s != [] && IsWhitespace(s[|s| - 1]) then
      var r := TrimEnd(s[..|s| - 1]);
      assert s[..|s| - 1][..|r|] == s[..|r|];
      assert forall k | |r| <= k < |s| - 1 :: s[k] == s[..|s| - 1][k];
      r
    else s
  }

  /**
   * `s.trim()`: the slice of `s` left after dropping white space at both
   * ends, bounded by non-white-space when non-empty.
   */
  function Trim(s: string): (r: string)
    ensures exists i, j | 0 <= i <= j <= |s| ::
      r == s[i..j] && AllWhitespace(s[..i]) && AllWhitespace(s[j..])
    ensures r != [] ==> !IsWhitespace(r[0]) && !IsWhitespace(r[|r| - 1])
    ensures forall c | c in r :: c in s
  {
    var t := TrimStart(s);
    var r := TrimEnd(t);
    TrimSlice(s, t, r);
    r
  }

  /**
   * Dropping a white-space prefix of `s` to get `t`, then a white-space
   * suffix of `t` to get `r`, leaves a slice of `s` with white space only
   * outside it.
   */
  lemma TrimSlice(s: string, t: string, r: string)
    requires |t| <= |s| && t == s[|s| - |t|..]
    requires |r| <= |t| && r == t[..|r|]
    requires forall k | 0 <= k < |s| - |t| :: IsWhitespace(s[k])
    requires forall k | |r| <= k < |t| :: IsWhitespace(t[k])
    ensures exists i, j | 0 <= i <= j <= |s| ::
      r == s[i..j] && AllWhitespace(s[..i]) && AllWhitespace(s[j..])
    ensures forall c | c in r :: c in s
  {
    var i, j := |s| - |t|, |s| - |t| + |r|;
    SliceMembers(s, i, j);
    forall k | 0 <= k < i ensures IsWhitespace(s[..i][k]) {
      assert s[..i][k] == s[k];
    }
    forall k | 0 <= k < |s| - j ensures IsWhitespace(s[j..][k]) {
      assert s[j..][k] == t[|r| + k];
    }
    assert r == s[i..j] && AllWhitespace(s[..i]) && AllWhitespace(s[j..]);
  }

  /** Every character of `s` is white space. */
  ghost predicate AllWhitespace(s: string) {
    forall k | 0 <= k < |s| :: IsWhitespace(s[k])
  }

  /** Trimming leaves nothing exactly when the text is all white space. */
  lemma TrimEmpty(s: string)
    ensures Trim(s) == [] <==> AllWhitespace(s)
  {
    var t := TrimStart(s);
    if t != [] {
      assert t[0] == s[|s| - |t|];
      assert !IsWhitespace(t[0]);
      assert TrimEnd(t) != [];
    }
  }

  /** A slice of white space is white space. */
  lemma AllWhitespaceSlice(s: string, i: nat, j: nat)
    requires AllWhitespace(s) && i <= j <= |s|
    ensures AllWhitespace(s[i..j])
  {
    assert forall m | 0 <= m < j - i :: s[i..j][m] == s[i + m];
  }

  /** Every character of a slice occurs in the whole. */
  lemma SliceMembers(s: string, i: nat, j: nat)
    requires i <= j <= |s|
    ensures forall c | c in s[i..j] :: c in s
  {
    forall c | c in s[i..j] ensures c in s {
      var m :| 0 <= m < j - i && s[i..j][m] == c;
      assert s[i + m] == c;
    }
  }

  /** Splitting then joining gives back the input. */
  lemma {:induction false} JoinSplit(s: string, sep: char)
    ensures Join(Split(s, sep), sep) == s
  {
    if s != [] {
      var rest := Split(s[1..], sep);
      JoinSplit(s[1..], sep);
      if s[0] == sep {
        assert ([""] + rest)[1..] == rest;
      } else if |rest| == 1 {
        assert Join(rest, sep) == rest[0];
      } else {
        var r := [[s[0]] + rest[0]] + rest[1..];
        assert r[1..] == rest[1..];
      }
    }
  }

  /** A text without `sep` is a single piece. */
  lemma {:induction false} SplitWithoutSep(s: string, sep: char)
    requires sep !in s
    ensures Split(s, sep) == [s]
  {
    if s != [] {
      assert sep !in s[1..] by { SliceMembers(s, 1, |s|); }
      SplitWithoutSep(s[1..], sep);
      assert s == [s[0]] + s[1..];
    }
  }

  /** Splitting at a separator splits each side. */
  lemma {:induction false} SplitConcat(a: string, b: string, sep: char)
    ensures Split(a + [sep] + b, sep) == Split(a, sep) + Split(b, sep)
  {
    var s := a + [sep] + b;
    if a == [] {
      assert s == [sep] + b;
      assert s[1..] == b;
    } else {
      assert s[0] == a[0];
      assert s[1..] == a[1..] + [sep] + b;
      var left, right := Split(a[1..], sep), Split(b, sep);
      var rest := Split(s[1..], sep);
      assert rest == left + right by { SplitConcat(a[1..], b, sep); }
      if a[0] == sep {
        assert Split(s, sep) == [""] + rest;
        assert Split(a, sep) == [""] + left;
        assert [""] + (left + right) == ([""] + left) + right;
      } else {
        var first := [a[0]] + left[0];
        assert rest[0] == left[0] && rest[1..] == left[1..] + right;
        assert Split(s, sep) == [first] + rest[1..];
        assert Split(a, sep) == [first] + left[1..];
        assert [first] + (left[1..] + right) == ([first] + left[1..]) + right;
      }
    }
  }

  /** Joining pieces free of `sep`, then splitting, gives back the pieces. */
  lemma {:induction false} SplitJoin(parts: seq<string>, sep: char)
    requires |parts| >= 1
    requires forall i | 0 <= i < |parts| :: sep !in parts[i]
    ensures Split(Join(parts, sep), sep) == parts
  {
    SplitWithoutSep(parts[0], sep);
    if |parts| > 1 {
      SplitJoin(parts[1..], sep);
      SplitConcat(parts[0], Join(parts[1..], sep), sep);
    }
  }

  /**
   * The first piece is the text before the first `sep`; there is a second
   * piece exactly when `sep` occurs, and the later pieces split what follows it.
   */
  lemma {:induction false} SplitFirst(s: string, sep: char)
    ensures var r, k := Split(s, sep), IndexOf(s, sep);
      && r[0] == s[..k]
      && (|r| >= 2 <==> k < |s|)
      && (k < |s| ==> r[1..] == Split(s[k + 1..], sep))
  {
    if s != [] && s[0] != sep {
      SplitFirst(s[1..], sep);
      var rest := Split(s[1..], sep);
      var k := IndexOf(s, sep);
      assert s[..k] == [s[0]] + s[1..][..k - 1];
      assert k < |s| ==> s[k + 1..] == s[1..][k..];
    } else if s != [] {
      assert ([""] + Split(s[1..], sep))[1..] == Split(s[1..], sep);
    }
  }

  /** Appending a character other than `sep` does not move the first `sep`. */
  lemma {:induction false} IndexOfAppend(s: string, ch: char, sep: char)
    requires ch != sep
    ensures IndexOf(s + [ch], sep) == if IndexOf(s, sep) < |s| then IndexOf(s, sep) else |s| + 1
  {
    if s != [] {
      assert (s + [ch])[0] == s[0] && (s + [ch])[1..] == s[1..] + [ch];
      IndexOfAppend(s[1..], ch, sep);
    } else {
      assert [ch][1..] == [];
    }
  }

  /** Trailing white space added to a text with some non-white-space survives the left trim. */
  lemma {:induction false} TrimStartAppend(s: string, w: char)
    requires IsWhitespace(w)
    ensures TrimStart(s + [w]) == if TrimStart(s) == [] then [] else TrimStart(s) + [w]
  {
    var sw := s + [w];
    if s == [] {
      assert sw[1..] == [];
      assert TrimStart(sw) == TrimStart(sw[1..]);
    } else {
      assert sw[0] == s[0];
      if IsWhitespace(s[0]) {
        assert sw[1..] == s[1..] + [w];
        TrimStartAppend(s[1..], w);
        assert TrimStart(sw) == TrimStart(s[1..] + [w]);
        assert TrimStart(s) == TrimStart(s[1..]);
      } else {
        assert TrimStart(sw) == sw;
        assert TrimStart(s) == s;
      }
    }
  }


  /** Extra white space at the end of a text does not change its trimmed form. */
  lemma TrimAppendWhitespace(s: string, w: char)
    requires IsWhitespace(w)
    ensures Trim(s + [w]) == Trim(s)
  {
    TrimStartAppend(s, w);
    var t := TrimStart(s);
    if t != [] {
      assert (t + [w])[..|t|] == t;
    }
  }

  /** Every character of a piece is a character of the text other than the separator. */
  lemma {:induction false} SplitPieceChars(s: string, sep: char, i: nat)
    requires i < |Split(s, sep)|
    ensures forall c | c in Split(s, sep)[i] :: c in s && c != sep
  {
    if s != [] {
      var rest := Split(s[1..], sep);
      var j := if s[0] == sep then i - 1 else i;
      if j >= 0 {
        SplitPieceChars(s[1..], sep, j);
        SliceMembers(s, 1, |s|);
      }
      if s[0] == sep {
        if i > 0 {
          assert Split(s, sep)[i] == rest[i - 1];
        }
      } else if i == 0 {
        assert Split(s, sep)[0] == [s[0]] + rest[0];
      } else {
        assert Split(s, sep)[i] == rest[i];
      }
    }
  }

  /** Appending a character other than the separator extends the last piece. */
  lemma {:induction false} SplitAppendChar(s: string, ch: char, sep: char)
    requires ch != sep
    ensures var r, n := Split(s, sep), |Split(s, sep)|;
      Split(s + [ch], sep) == r[..n - 1] + [r[n - 1] + [ch]]
  {
    var r, r' := Split(s, sep), Split(s + [ch], sep);
    if s == [] {
      assert s + [ch] == [ch] && [ch][1..] == [];
      assert r == [""];
      assert r' == [[ch] + ""] + [""][1..];
      assert [ch] + "" == [ch] && [""][1..] == [];
    } else {
      var sc := s + [ch];
      assert sc[0] == s[0] && sc[1..] == s[1..] + [ch];
      var rest, rest' := Split(s[1..], sep), Split(s[1..] + [ch], sep);
      var m := |rest|;
      SplitAppendChar(s[1..], ch, sep);
      assert rest' == rest[..m - 1] + [rest[m - 1] + [ch]];
      if s[0] == sep {
        assert r == [""] + rest && r' == [""] + rest';
        assert r[..|r| - 1] == [""] + rest[..m - 1];
      } else {
        assert r == [[s[0]] + rest[0]] + rest[1..];
        assert r' == [[s[0]] + rest'[0]] + rest'[1..];
        if m == 1 {
          assert rest'[0] == rest[0] + [ch];
          assert [s[0]] + (rest[0] + [ch]) == ([s[0]] + rest[0]) + [ch];
        } else {
          var last := [rest[m - 1] + [ch]];
          assert rest[..m - 1] == [rest[0]] + rest[1..m - 1];
          assert rest' == [rest[0]] + (rest[1..m - 1] + last);
          assert rest'[0] == rest[0] && rest'[1..] == rest[1..m - 1] + last;
          assert r[..|r| - 1] == [[s[0]] + rest[0]] + rest[1..m - 1];
          assert r[|r| - 1] == rest[m - 1];
        }
      }
    }
  }
}
