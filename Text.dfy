/**
 * The JavaScript string built-ins the application relies on, over strings
 * modelled as sequences of Unicode scalar values (`seq<char>`).
 */
module Text {

  import opened Seqs

  /** ECMAScript WhiteSpace and LineTerminator code points: what `String.prototype.trim` strips. */
  predicate IsWhite(c: char) {
    var n := c as int;
    || 0x09 <= n <= 0x0D                // tab, line feed, vertical tab, form feed, carriage return
    || n == 0x20 || n == 0xA0 || n == 0x1680
    || 0x2000 <= n <= 0x200A
    || n == 0x2028 || n == 0x2029 || n == 0x202F || n == 0x205F
    || n == 0x3000 || n == 0xFEFF
  }

  predicate AllWhite(s: string) {
    forall k :: 0 <= k < |s| ==> IsWhite(s[k])
  }

  /** `s.trimStart()`: the longest suffix of `s` that does not start with white space. */
  function TrimStart(s: string): (r: string)
    ensures |r| <= |s| && r == s[|s| - |r|..]
    ensures r == [] || !IsWhite(r[0])
    ensures forall k :: 0 <= k < |s| - |r| ==> IsWhite(s[k])
  {
    if s == [] || !IsWhite(s[0]) then s
    else
      var t := TrimStart(s[1..]);
      assert forall k :: 1 <= k < |s| ==> s[k] == s[1..][k - 1];
      t
  }

  /** `s.trimEnd()`: the longest prefix of `s` that does not end with white space. */
  function TrimEnd(s: string): (r: string)
    ensures |r| <= |s| && r == s[..|r|]
    ensures r == [] || !IsWhite(r[|r| - 1])
    ensures forall k :: |r| <= k < |s| ==> IsWhite(s[k])
  {
    if s == [] || !IsWhite(s[|s| - 1]) then s
    else
      var t := TrimEnd(s[..|s| - 1]);
      assert forall k :: 0 <= k < |s| - 1 ==> s[k] == s[..|s| - 1][k];
      t
  }

  /**
   * `s.trim()`: `s` without its leading and trailing white space. It is
   * empty exactly when `s` is all white space, and otherwise starts and
   * ends with a character that is not white space; `TrimIsSlice` shows it
   * is the slice of `s` left once white space is cut from both ends.
   */
  function Trim(s: string): (r: string)
    ensures r == [] <==> AllWhite(s)
    ensures r != [] ==> !IsWhite(r[0]) && !IsWhite(r[|r| - 1])
  {
    var a := TrimStart(s);
    var r := TrimEnd(a);
    assert r != [] ==> a[0] == r[0];
    TrimmedEmptyIsAllWhite(s);
    r
  }

  /** The two trims leave nothing exactly when every character was white space. */
  lemma TrimmedEmptyIsAllWhite(s: string)
    ensures var r := TrimEnd(TrimStart(s)); r == [] <==> AllWhite(s)
  {
    var a := TrimStart(s);
    var r := TrimEnd(a);
    var i := |s| - |a|;
    if r != [] {
      assert a[0] == r[0];
      assert !IsWhite(s[i]);
    }
  }

  /** Trimming only removes white space, and only from the two ends: the result is a slice of the input. */
  lemma TrimIsSlice(s: string)
    ensures exists i, j :: 0 <= i <= j <= |s| && Trim(s) == s[i..j] && AllWhite(s[..i]) && AllWhite(s[j..])
  {
    var a := TrimStart(s);
    var r := TrimEnd(a);
    var i := |s| - |a|;
    PrefixOfSuffix(s, a, r);
    assert AllWhite(s[..i]) by {
      forall k | 0 <= k < i ensures IsWhite(s[..i][k]) {
        assert s[..i][k] == s[k];
      }
    }
    var j := i + |r|;
    assert AllWhite(s[j..]) by {
      forall k | 0 <= k < |s| - j ensures IsWhite(s[j..][k]) {
        assert s[j..][k] == a[|r| + k];
      }
    }
    assert Trim(s) == s[i..j];
  }

  /** Trimming a trimmed string changes nothing. */
  lemma TrimIdempotent(s: string)
    ensures Trim(Trim(s)) == Trim(s)
  {
    var r := Trim(s);
    if r != [] {
      assert TrimStart(r) == r;
      assert TrimEnd(r) == r;
    }
  }

  /** Text that starts and ends with a character other than white space is left as it is. */
  lemma TrimKeepsTrimmed(s: string)
    requires s != [] && !IsWhite(s[0]) && !IsWhite(s[|s| - 1])
    ensures Trim(s) == s
  {
    assert TrimStart(s) == s;
    assert TrimEnd(s) == s;
  }

  /** A prefix of a suffix of `s` is a slice of `s`. */
  lemma PrefixOfSuffix<T>(s: seq<T>, a: seq<T>, r: seq<T>)
    requires |a| <= |s| && a == s[|s| - |a|..] && |r| <= |a| && r == a[..|r|]
    ensures s[|s| - |a|..|s| - |a| + |r|] == r
  {
  }

  /** JavaScript's truthiness test `!s.trim()`: the string is empty or white space only. */
  predicate Blank(s: string) {
    Trim(s) == []
  }

  /** Text that is not blank stays so whatever is appended to it. */
  lemma NotBlankExtended(s: string, t: string)
    requires !Blank(s)
    ensures !Blank(s + t)
  {
    var k :| 0 <= k < |s| && !IsWhite(s[k]);
    assert (s + t)[k] == s[k];
  }

  /** `toLowerCase` restricted to ASCII: `A`..`Z` map to `a`..`z`, everything else is kept. */
  function LowerChar(c: char): (d: char)
    ensures 'A' <= c <= 'Z' ==> d as int == c as int + 32
    ensures !('A' <= c <= 'Z') ==> d == c
  {
    if 'A' <= c <= 'Z' then (c as int + 32) as char else c
  }

  /** `s.toLowerCase()`: the same length, each character lowered, and no capital letter left. */
  function Lower(s: string): (r: string)
    ensures |r| == |s|
    ensures forall k :: 0 <= k < |s| ==> r[k] == LowerChar(s[k])
    ensures forall k :: 0 <= k < |r| ==> !('A' <= r[k] <= 'Z')
  {
    seq(|s|, k requires 0 <= k < |s| => LowerChar(s[k]))
  }

  /**
   * `hay.includes(needle)`: `needle` occurs in `hay` as a contiguous slice.
   * The empty string occurs everywhere, and nothing longer than `hay` does.
   */
  predicate Includes(hay: string, needle: string): (b: bool)
    ensures needle == [] ==> b
    ensures b ==> |needle| <= |hay|
  {
    assert needle == [] ==> SliceAt(hay, needle, 0);
    exists i | 0 <= i <= |hay| - |needle| :: SliceAt(hay, needle, i)
  }

  /** `needle` occurs in `s` starting at position `i`. */
  predicate SliceAt(s: string, needle: string, i: int) {
    0 <= i <= |s| - |needle| && s[i..i + |needle|] == needle
  }

  /** A slice stays a slice once both texts are lower-cased. */
  lemma IncludesLowered(hay: string, needle: string)
    requires Includes(hay, needle)
    ensures Includes(Lower(hay), Lower(needle))
  {
    var i :| 0 <= i <= |hay| - |needle| && SliceAt(hay, needle, i);
    assert Lower(hay)[i..i + |needle|] == Lower(needle);
    assert SliceAt(Lower(hay), Lower(needle), i);
  }

  /** `s.startsWith(prefix)`: a prefix is in particular a slice of `s`, and the empty prefix always matches. */
  predicate StartsWith(s: string, prefix: string): (b: bool)
    ensures prefix == [] ==> b
    ensures b ==> Includes(s, prefix)
  {
    assert |prefix| <= |s| && s[..|prefix|] == prefix ==> SliceAt(s, prefix, 0) by {
      if |prefix| <= |s| {
        assert s[0..|prefix|] == s[..|prefix|];
      }
    }
    |prefix| <= |s| && s[..|prefix|] == prefix
  }

  /**
   * `s.split(sep)` for a one-character separator: the pieces between the
   * separators, in order. There is one piece more than there are
   * separators, so a string without `sep` is its own single piece.
   */
  function Split(s: string, sep: char): (parts: seq<string>)
    ensures |parts| >= 1
    ensures |parts| == 1 ==> parts[0] == s
  {
    if s == [] then [[]]
    else
      var rest := Split(s[1..], sep);
      assert s == [s[0]] + s[1..];
      if s[0] == sep then [[]] + rest
      else [[s[0]] + rest[0]] + rest[1..]
  }

  /** `parts.join(sep)`: the first piece, then the separator and the rest joined. */
  function Join(parts: seq<string>, sep: string): (r: string)
    ensures parts == [] ==> r == []
    ensures parts != [] ==> |parts[0]| <= |r| && r[..|parts[0]|] == parts[0]
    ensures |parts| >= 2 ==> |parts[0]| + |sep| <= |r| && r[|parts[0]|..|parts[0]| + |sep|] == sep
    ensures |parts| == 1 ==> r == parts[0]
  {
    if parts == [] then []
    else if |parts| == 1 then parts[0]
    else parts[0] + sep + Join(parts[1..], sep)
  }

  /** Joining the pieces of a split with the separator gives back the original string. */
  lemma {:induction false} JoinSplit(s: string, sep: char)
    ensures Join(Split(s, sep), [sep]) == s
  {
    if s != [] {
      var tail := s[1..];
      var rest := Split(tail, sep);
      JoinSplit(tail, sep);
      assert Join(rest, [sep]) == tail;
      assert s == [s[0]] + tail;
      if s[0] == sep {
        assert Split(s, sep) == [[]] + rest;
        JoinCons([], rest, [sep]);
      } else {
        assert Split(s, sep) == [[s[0]] + rest[0]] + rest[1..];
        JoinExtendFirst(s[0], rest, [sep]);
      }
    }
  }

  /** Putting a character in front of the first piece puts it in front of the joined text. */
  lemma JoinExtendFirst(c: char, parts: seq<string>, sep: string)
    requires parts != []
    ensures Join([[c] + parts[0]] + parts[1..], sep) == [c] + Join(parts, sep)
  {
    var more := parts[1..];
    if more != [] {
      assert [parts[0]] + more == parts;
      JoinCons(parts[0], more, sep);
      JoinCons([c] + parts[0], more, sep);
    }
  }

  lemma JoinCons(first: string, rest: seq<string>, sep: string)
    requires rest != []
    ensures Join([first] + rest, sep) == first + sep + Join(rest, sep)
  {
    assert ([first] + rest)[0] == first && ([first] + rest)[1..] == rest;
  }

  /** No piece of a split contains the separator. */
  lemma {:induction false} SplitPiecesLackSeparator(s: string, sep: char)
    ensures forall k :: 0 <= k < |Split(s, sep)| ==> sep !in Split(s, sep)[k]
  {
    if s != [] {
      var rest := Split(s[1..], sep);
      SplitPiecesLackSeparator(s[1..], sep);
      var parts := Split(s, sep);
      if s[0] == sep {
        assert forall k :: 1 <= k < |parts| ==> parts[k] == rest[k - 1];
      } else {
        assert sep !in rest[0];
        assert parts[0] == [s[0]] + rest[0];
        assert forall k :: 1 <= k < |parts| ==> parts[k] == rest[k];
      }
    }
  }

  /**
   * The last piece of a split is a suffix of `s` without `sep`; it is all
   * of `s` when the split found no separator, and otherwise it follows a
   * `sep`: it is what comes after the last separator.
   */
  lemma {:induction false} SplitLast(s: string, sep: char)
    ensures var parts := Split(s, sep); var p := parts[|parts| - 1];
      && |p| <= |s| && s[|s| - |p|..] == p
      && sep !in p
      && (|p| < |s| <==> |parts| > 1)
      && (|p| < |s| ==> s[|s| - |p| - 1] == sep)
  {
    if s != [] {
      var tail := s[1..];
      var rest := Split(tail, sep);
      var parts := Split(s, sep);
      SplitLast(tail, sep);
      var q := rest[|rest| - 1];
      assert s == [s[0]] + tail;
      assert s[|s| - |q|..] == tail[|tail| - |q|..];
      if s[0] == sep {
        assert parts == [[]] + rest;
        assert parts[|parts| - 1] == q;
      } else if |rest| == 1 {
        assert parts == [[s[0]] + rest[0]];
        assert q == tail;
      } else {
        assert parts == [[s[0]] + rest[0]] + rest[1..];
        assert parts[|parts| - 1] == q;
        assert s[|s| - |q| - 1] == tail[|tail| - |q| - 1];
      }
    }
  }

  /** Text without capital letters is its own lower case. */
  lemma LowerKeepsLowercase(s: string)
    requires forall k :: 0 <= k < |s| ==> !('A' <= s[k] <= 'Z')
    ensures Lower(s) == s
  {
  }

  /** Lower-casing does not move white space in or out: strings equal up to case are blank together. */
  lemma {:induction false} BlankUpToCase(s: string, t: string)
    requires Lower(s) == Lower(t)
    ensures Blank(s) <==> Blank(t)
  {
    assert |s| == |Lower(s)| == |t|;
    forall k | 0 <= k < |s| ensures IsWhite(s[k]) <==> IsWhite(t[k]) {
      assert Lower(s)[k] == Lower(t)[k];
      WhiteUpToCase(s[k], t[k]);
    }
    assert AllWhite(s) <==> AllWhite(t);
  }

  lemma WhiteUpToCase(c: char, d: char)
    requires LowerChar(c) == LowerChar(d)
    ensures IsWhite(c) <==> IsWhite(d)
  {
    if 'A' <= c <= 'Z' || 'A' <= d <= 'Z' {
      assert 'a' <= LowerChar(c) <= 'z';
    }
  }
}
