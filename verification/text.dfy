/** The string primitives the script relies on: `trim`, `toLowerCase`,
    `startsWith`, `includes`, `split` on one character and `split(/\s+/)`.
    Strings are sequences of characters; lower-casing is modelled over ASCII. */
module Text {

  /** JavaScript's WhiteSpace and LineTerminator code points: the characters
      `String.prototype.trim` removes and the regular-expression class `\s` matches. */
  predicate IsSpace(c: char) {
    var n := c as int;
    || n == 0x09 || n == 0x0A || n == 0x0B || n == 0x0C || n == 0x0D
    || n == 0x20 || n == 0xA0 || n == 0x1680 || (0x2000 <= n <= 0x200A)
    || n == 0x2028 || n == 0x2029 || n == 0x202F || n == 0x205F
    || n == 0x3000 || n == 0xFEFF
  }

  /** The regular-expression class `\d`: the ASCII decimal digits only. */
  predicate IsDigit(c: char) {
    '0' <= c <= '9'
  }

  predicate NoSpace(s: string) {
    forall i :: 0 <= i < |s| ==> !IsSpace(s[i])
  }

  function LowerChar(c: char): char {
    if 'A' <= c <= 'Z' then ((c as int) - ('A' as int) + ('a' as int)) as char else c
  }

  /** `toLowerCase`, character by character. */
  function Lower(s: string): string {
    seq(|s|, i requires 0 <= i < |s| => LowerChar(s[i]))
  }

  /** Number of whitespace characters at the start of `s`. */
  function LeadingSpaces(s: string): (n: nat)
    ensures n <= |s|
    ensures forall i :: 0 <= i < n ==> IsSpace(s[i])
    ensures n == |s| || !IsSpace(s[n])
    decreases |s|
  {
    if |s| > 0 && IsSpace(s[0]) then 1 + LeadingSpaces(s[1..]) else 0
  }

  /** Number of whitespace characters at the end of `s`. */
  function TrailingSpaces(s: string): (n: nat)
    ensures n <= |s|
    ensures forall i :: |s| - n <= i < |s| ==> IsSpace(s[i])
    ensures n == |s| || !IsSpace(s[|s| - 1 - n])
    decreases |s|
  {
    if |s| > 0 && IsSpace(s[|s| - 1]) then 1 + TrailingSpaces(s[..|s| - 1]) else 0
  }

  /** `trim`: the slice of `s` left after dropping its leading and trailing
      whitespace. */
  function Trim(s: string): (r: string)
    ensures var i := LeadingSpaces(s);
      && i + |r| <= |s|
      && r == s[i..i + |r|]
      && forall k :: i + |r| <= k < |s| ==> IsSpace(s[k])
    ensures r == [] || (!IsSpace(r[0]) && !IsSpace(r[|r| - 1]))
  {
    var rest := s[LeadingSpaces(s)..];
    rest[..|rest| - TrailingSpaces(rest)]
  }

  /** Trimming a string twice is trimming it once. */
  lemma TrimIdempotent(s: string)
    ensures Trim(Trim(s)) == Trim(s)
  {
    TrimFixed(Trim(s));
  }

  /** Trimming a text that starts with a word without whitespace at its ends
      keeps that word at the front, whatever follows it. */
  lemma TrimKeepsHead(w: string, rest: string)
    requires |w| > 0 && !IsSpace(w[0]) && !IsSpace(w[|w| - 1])
    ensures |Trim(w + rest)| >= |w|
    ensures Trim(w + rest)[..|w|] == w
  {
    var a := w + rest;
    assert a[0] == w[0];
    assert LeadingSpaces(a) == 0;
    assert a[|w| - 1] == w[|w| - 1];
    assert a[..|w|] == w;
  }

  /** A string with no whitespace at either end is its own trim. */
  lemma TrimFixed(s: string)
    requires s == [] || (!IsSpace(s[0]) && !IsSpace(s[|s| - 1]))
    ensures Trim(s) == s
  {
    assert LeadingSpaces(s) == 0;
    assert TrailingSpaces(s) == 0;
  }

  predicate StartsWith(s: string, prefix: string) {
    |prefix| <= |s| && s[..|prefix|] == prefix
  }

  /** `hay.includes(needle)`, computed by trying every start position. */
  function Includes(hay: string, needle: string): bool
    decreases |hay|
  {
    StartsWith(hay, needle) || (|hay| > 0 && Includes(hay[1..], needle))
  }

  /** `needle` sits in `hay` at position `i`. */
  predicate SliceAt(hay: string, needle: string, i: nat) {
    i + |needle| <= |hay| && hay[i..i + |needle|] == needle
  }

  lemma {:induction false} SliceAtIncluded(hay: string, needle: string, i: nat)
    requires SliceAt(hay, needle, i)
    ensures Includes(hay, needle)
    decreases i
  {
    if i > 0 {
      assert hay[1..][i - 1..i - 1 + |needle|] == hay[i..i + |needle|];
      SliceAtIncluded(hay[1..], needle, i - 1);
    }
  }

  lemma {:induction false} IncludedSliceAt(hay: string, needle: string) returns (i: nat)
    requires Includes(hay, needle)
    ensures SliceAt(hay, needle, i)
    decreases |hay|
  {
    if StartsWith(hay, needle) {
      i := 0;
    } else {
      var k := IncludedSliceAt(hay[1..], needle);
      assert hay[1..][k..k + |needle|] == hay[k + 1..k + 1 + |needle|];
      i := k + 1;
    }
  }

  /** `Includes` holds exactly when `needle` is a contiguous slice of `hay`. */
  lemma IncludesIsSlice(hay: string, needle: string)
    ensures Includes(hay, needle) <==> exists i: nat :: SliceAt(hay, needle, i)
  {
    if Includes(hay, needle) {
      var i := IncludedSliceAt(hay, needle);
    }
    if exists i: nat :: SliceAt(hay, needle, i) {
      var i: nat :| SliceAt(hay, needle, i);
      SliceAtIncluded(hay, needle, i);
    }
  }

  /** Every string includes the empty string: the source of the empty-word matches. */
  lemma IncludesEmpty(hay: string)
    ensures Includes(hay, [])
  {
    assert StartsWith(hay, []);
  }

  /** Every string includes itself. */
  lemma IncludesSelf(s: string)
    ensures Includes(s, s)
  {
    assert StartsWith(s, s);
  }

  /** Joins pieces with one separator character between neighbours. */
  function Join(pieces: seq<string>, d: char): string
    requires |pieces| >= 1
    decreases |pieces|
  {
    if |pieces| == 1 then pieces[0] else pieces[0] + [d] + Join(pieces[1..], d)
  }

  lemma JoinConsFirst(x: string, pieces: seq<string>, d: char)
    requires |pieces| >= 1
    ensures Join([x + pieces[0]] + pieces[1..], d) == x + Join(pieces, d)
  {
    var ps := [x + pieces[0]] + pieces[1..];
    assert ps[1..] == pieces[1..];
  }

  /** `s.split(d)` for a one-character separator: the maximal separator-free
      pieces, empty ones included, so that there is always one piece more than
      there are separators. */
  function Split(s: string, d: char): (r: seq<string>)
    ensures |r| >= 1
    decreases |s|
  {
    if |s| == 0 then [""]
    else
      var rest := Split(s[1..], d);
      if s[0] == d then [""] + rest else [[s[0]] + rest[0]] + rest[1..]
  }

  /** The pieces hold no separator, and joining them back with it gives the
      text that was split. */
  lemma {:induction false} SplitShape(s: string, d: char)
    ensures forall i :: 0 <= i < |Split(s, d)| ==> d !in Split(s, d)[i]
    ensures Join(Split(s, d), d) == s
    decreases |s|
  {
    if |s| > 0 {
      SplitShape(s[1..], d);
      var rest := Split(s[1..], d);
      if s[0] == d {
        assert Split(s, d) == [""] + rest;
        assert ([""] + rest)[1..] == rest;
      } else {
        assert Split(s, d) == [[s[0]] + rest[0]] + rest[1..];
        JoinConsFirst([s[0]], rest, d);
        assert s == [s[0]] + s[1..];
      }
    }
  }

  /** Splitting undoes joining whenever no piece holds the separator. */
  lemma {:induction false} SplitJoin(pieces: seq<string>, d: char)
    requires |pieces| >= 1
    requires forall i :: 0 <= i < |pieces| ==> d !in pieces[i]
    ensures Split(Join(pieces, d), d) == pieces
    decreases |pieces|
  {
    if |pieces| == 1 {
      SplitFree(pieces[0], d);
    } else {
      SplitJoin(pieces[1..], d);
      SplitPrefix(pieces[0], Join(pieces[1..], d), d);
      assert [pieces[0]] + pieces[1..] == pieces;
    }
  }

  lemma {:induction false} SplitFree(s: string, d: char)
    requires d !in s
    ensures Split(s, d) == [s]
    decreases |s|
  {
    if |s| > 0 {
      SplitFree(s[1..], d);
      assert [s[0]] + s[1..] == s;
    }
  }

  lemma {:induction false} SplitPrefix(w: string, rest: string, d: char)
    requires d !in w
    ensures Split(w + [d] + rest, d) == [w] + Split(rest, d)
    decreases |w|
  {
    var s := w + [d] + rest;
    if |w| == 0 {
      assert s[1..] == rest;
    } else {
      assert s[1..] == w[1..] + [d] + rest;
      SplitPrefix(w[1..], rest, d);
      assert [s[0]] + w[1..] == w;
    }
  }

  /** `s.split(/\s+/)`: the pieces between maximal whitespace runs. A leading or
      trailing run yields an empty first or last piece, and the empty string
      splits into one empty piece. */
  function SplitWs(s: string): (r: seq<string>)
    ensures |r| >= 1
    decreases |s|
  {
    if |s| == 0 then [""]
    else
      var rest := SplitWs(s[1..]);
      if !IsSpace(s[0]) then
        [[s[0]] + rest[0]] + rest[1..]
      else if |s| > 1 && IsSpace(s[1]) then
        rest
      else
        [""] + rest
  }

  lemma NoSpaceCons(s: string)
    requires |s| > 0
    ensures NoSpace(s) <==> !IsSpace(s[0]) && NoSpace(s[1..])
  {
    assert forall i :: 1 <= i < |s| ==> s[i] == s[1..][i - 1];
  }

  /** No piece of `split(/\s+/)` holds whitespace. */
  lemma {:induction false} SplitWsNoSpace(s: string)
    ensures forall i :: 0 <= i < |SplitWs(s)| ==> NoSpace(SplitWs(s)[i])
    decreases |s|
  {
    if |s| > 0 {
      SplitWsNoSpace(s[1..]);
      var rest := SplitWs(s[1..]);
      if !IsSpace(s[0]) {
        NoSpaceCons([s[0]] + rest[0]);
        assert ([s[0]] + rest[0])[1..] == rest[0];
        assert SplitWs(s) == [[s[0]] + rest[0]] + rest[1..];
      }
    }
  }

  /** Only the first and the last piece can be empty. */
  lemma {:induction false} SplitWsInner(s: string)
    ensures forall i :: 0 < i < |SplitWs(s)| - 1 ==> |SplitWs(s)[i]| > 0
    decreases |s|
  {
    if |s| > 0 {
      SplitWsInner(s[1..]);
      SplitWsFirst(s[1..]);
    }
  }

  /** There is one piece exactly when the text has no whitespace. */
  lemma {:induction false} SplitWsOne(s: string)
    ensures |SplitWs(s)| == 1 <==> NoSpace(s)
    decreases |s|
  {
    if |s| > 0 {
      SplitWsOne(s[1..]);
      NoSpaceCons(s);
      if |s| > 1 {
        NoSpaceCons(s[1..]);
      }
    }
  }

  /** The first piece is empty exactly when the text is empty or starts with
      whitespace. */
  lemma {:induction false} SplitWsFirst(s: string)
    ensures SplitWs(s)[0] == [] <==> |s| == 0 || IsSpace(s[0])
    decreases |s|
  {
    if |s| > 1 && IsSpace(s[0]) && IsSpace(s[1]) {
      SplitWsFirst(s[1..]);
    }
  }

  /** The last piece is empty exactly when the text is empty or ends with
      whitespace. */
  lemma {:induction false} SplitWsLast(s: string)
    ensures SplitWs(s)[|SplitWs(s)| - 1] == [] <==> |s| == 0 || IsSpace(s[|s| - 1])
    decreases |s|
  {
    if |s| > 0 {
      SplitWsLast(s[1..]);
      var rest := SplitWs(s[1..]);
      if !IsSpace(s[0]) && |rest| == 1 && |s| > 1 {
        SplitWsOne(s[1..]);
        assert s[|s| - 1] == s[1..][|s| - 2];
      }
    }
  }

  /** Splitting on whitespace undoes joining with single spaces, for pieces that
      hold no whitespace and whose inner pieces are non-empty. */
  lemma {:induction false} SplitWsJoin(pieces: seq<string>)
    requires |pieces| >= 1
    requires forall i :: 0 <= i < |pieces| ==> NoSpace(pieces[i])
    requires forall i :: 0 < i < |pieces| - 1 ==> |pieces[i]| > 0
    ensures SplitWs(Join(pieces, ' ')) == pieces
    decreases |pieces|
  {
    if |pieces| == 1 {
      SplitWsFree(pieces[0]);
    } else {
      var tail := pieces[1..];
      assert forall i :: 0 <= i < |tail| ==> tail[i] == pieces[i + 1];
      SplitWsJoin(tail);
      var rest := Join(tail, ' ');
      JoinStartsWithFirst(tail, ' ');
      if |tail[0]| > 0 {
        assert rest[0] == tail[0][0];
      }
      SplitWsPrefix(pieces[0], rest);
      assert [pieces[0]] + tail == pieces;
    }
  }

  lemma JoinStartsWithFirst(pieces: seq<string>, d: char)
    requires |pieces| >= 1
    ensures StartsWith(Join(pieces, d), pieces[0])
    ensures pieces[0] == [] && |pieces| == 1 ==> Join(pieces, d) == []
  {
    if |pieces| > 1 {
      assert Join(pieces, d) == pieces[0] + ([d] + Join(pieces[1..], d));
    }
  }

  /** A string without whitespace is one word. */
  lemma {:induction false} SplitWsFree(s: string)
    requires NoSpace(s)
    ensures SplitWs(s) == [s]
    decreases |s|
  {
    if |s| > 0 {
      SplitWsFree(s[1..]);
      assert [s[0]] + s[1..] == s;
    }
  }

  lemma {:induction false} SplitWsPrefix(w: string, rest: string)
    requires NoSpace(w)
    requires rest == [] || !IsSpace(rest[0])
    ensures SplitWs(w + [' '] + rest) == [w] + SplitWs(rest)
    decreases |w|
  {
    var s := w + [' '] + rest;
    if |w| == 0 {
      assert s[1..] == rest;
    } else {
      assert s[1..] == w[1..] + [' '] + rest;
      SplitWsPrefix(w[1..], rest);
      assert [s[0]] + w[1..] == w;
    }
  }

  predicate AllSpace(s: string) {
    forall i :: 0 <= i < |s| ==> IsSpace(s[i])
  }

  /** The words with the separator runs put back between them. */
  function JoinWith(words: seq<string>, seps: seq<string>): string
    requires |words| == |seps| + 1
    decreases |seps|
  {
    if |seps| == 0 then words[0] else words[0] + seps[0] + JoinWith(words[1..], seps[1..])
  }

  lemma JoinWithHead(x: string, words: seq<string>, seps: seq<string>)
    requires |words| == |seps| + 1
    ensures JoinWith([x + words[0]] + words[1..], seps) == x + JoinWith(words, seps)
  {
    var ws := [x + words[0]] + words[1..];
    if |seps| > 0 {
      assert ws[1..] == words[1..];
    }
  }

  /** `split(/\s+/)` loses nothing but the whitespace runs: between
      consecutive words there is one non-empty run of whitespace, and putting
      the runs back gives the text. */
  lemma {:induction false} SplitWsSeparators(s: string) returns (seps: seq<string>)
    ensures |seps| == |SplitWs(s)| - 1
    ensures forall i :: 0 <= i < |seps| ==> |seps[i]| > 0 && AllSpace(seps[i])
    ensures JoinWith(SplitWs(s), seps) == s
    decreases |s|
  {
    if |s| == 0 {
      seps := [];
    } else {
      var rest := SplitWs(s[1..]);
      var tailSeps := SplitWsSeparators(s[1..]);
      var c := [s[0]];
      assert c + s[1..] == s;
      if !IsSpace(s[0]) {
        seps := tailSeps;
        JoinWithHead(c, rest, tailSeps);
      } else if |s| > 1 && IsSpace(s[1]) {
        SplitWsFirst(s[1..]);
        assert |tailSeps| > 0;
        seps := [c + tailSeps[0]] + tailSeps[1..];
        assert AllSpace(c + tailSeps[0]) by {
          assert forall i :: 1 <= i < |c + tailSeps[0]| ==> (c + tailSeps[0])[i] == tailSeps[0][i - 1];
        }
        assert seps[1..] == tailSeps[1..];
        assert JoinWith(rest, seps) == rest[0] + (c + tailSeps[0]) + JoinWith(rest[1..], tailSeps[1..]);
        assert s[1..] == rest[0] + tailSeps[0] + JoinWith(rest[1..], tailSeps[1..]);
      } else {
        seps := [c] + tailSeps;
        var words := [""] + rest;
        assert words[1..] == rest && seps[1..] == tailSeps;
        assert JoinWith(words, seps) == "" + c + JoinWith(rest, tailSeps);
      }
    }
  }
}
