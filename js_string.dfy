/** The parts of JavaScript's `String.prototype` the service relies on:
    `trim`, `split` on a one-character separator, `Array.prototype.join`,
    a global single-character `replace`, and `toLowerCase` restricted to
    ASCII letters. A JavaScript string is a `seq<char>`. */
module JsString {

  /** ECMAScript WhiteSpace and LineTerminator code points: what `trim` strips. */
  predicate IsWhiteSpace(c: char)
  {
    || c == '\t' || c == '\n' || c == '\U{000B}' || c == '\U{000C}' || c == '\r'
    || c == ' ' || c == '\U{00A0}' || c == '\U{1680}'
    || ('\U{2000}' <= c <= '\U{200A}')
    || c == '\U{2028}' || c == '\U{2029}' || c == '\U{202F}' || c == '\U{205F}'
    || c == '\U{3000}' || c == '\U{FEFF}'
  }

  predicate AllWhiteSpace(s: string)
  {
    forall k :: 0 <= k < |s| ==> IsWhiteSpace(s[k])
  }

  /** Leading white space removed: `r` is the longest suffix of `s` that does
      not start with white space, and what was cut off is all white space. */
  function TrimStart(s: string): (r: string)
    ensures |r| <= |s| && r == s[|s| - |r|..]
    ensures AllWhiteSpace(s[..|s| - |r|])
    ensures r == [] || !IsWhiteSpace(r[0])
  {
    if |s| > 0 && IsWhiteSpace(s[0]) then TrimStart(s[1..]) else s
  }

  /** Trailing white space removed, symmetrically to `TrimStart`. */
  function TrimEnd(s: string): (r: string)
    ensures |r| <= |s| && r == s[..|r|]
    ensures AllWhiteSpace(s[|r|..])
    ensures r == [] || !IsWhiteSpace(r[|r| - 1])
  {
    if |s| > 0 && IsWhiteSpace(s[|s| - 1]) then
      var t := s[..|s| - 1];
      var r := TrimEnd(t);
      assert s[|r|..] == t[|r|..] + [s[|s| - 1]];
      r
    else s
  }

  /** `String.prototype.trim`. */
  function Trim(s: string): (r: string)
  {
    TrimEnd(TrimStart(s))
  }

  /** `trim` yields the empty string exactly on strings made of white space only. */
  lemma TrimEmptyIff(s: string)
    ensures Trim(s) == [] <==> AllWhiteSpace(s)
  {
    var t := TrimStart(s);
    var cut := |s| - |t|;
    if t == [] {
      assert s[..cut] == s;
    } else {
      assert s[cut] == t[0];
      var e := TrimEnd(t);
      assert !AllWhiteSpace(t[0..]) by { assert t[0..][0] == t[0]; }
      assert |e| != 0;
    }
  }

  /** `trim` leaves a string alone when it neither starts nor ends with white space. */
  lemma TrimUnchanged(s: string)
    requires s == [] || (!IsWhiteSpace(s[0]) && !IsWhiteSpace(s[|s| - 1]))
    ensures Trim(s) == s
  {
  }

  /** `s.split(sep)` for a one-character separator: the pieces between
      separators, in order. As in JavaScript, the empty string splits into one
      empty piece, so the result is never empty. */
  function Split(s: string, sep: char): (r: seq<string>)
    ensures |r| >= 1
  {
    if |s| == 0 then [""]
    else
      var rest := Split(s[1..], sep);
      if s[0] == sep then [""] + rest else [[s[0]] + rest[0]] + rest[1..]
  }

  /** `pieces.join(sep)`; the empty list joins to the empty string. */
  function Join(pieces: seq<string>, sep: char): string
  {
    if |pieces| == 0 then ""
    else if |pieces| == 1 then pieces[0]
    else pieces[0] + [sep] + Join(pieces[1..], sep)
  }

  /** No piece of a split holds the separator. */
  lemma {:induction false} SplitPiecesOmitSeparator(s: string, sep: char)
    ensures forall j :: 0 <= j < |Split(s, sep)| ==> sep !in Split(s, sep)[j]
  {
    if |s| > 0 {
      SplitPiecesOmitSeparator(s[1..], sep);
    }
  }

  /** Joining the pieces of a split gives back the string. */
  lemma {:induction false} JoinSplit(s: string, sep: char)
    ensures Join(Split(s, sep), sep) == s
  {
    if |s| > 0 {
      var rest := Split(s[1..], sep);
      JoinSplit(s[1..], sep);
      if s[0] != sep && |rest| > 1 {
        assert rest == [rest[0]] + rest[1..];
      }
    }
  }

  /** A separator-free piece followed by the separator splits off as one piece. */
  lemma {:induction false} SplitAfterPiece(a: string, b: string, sep: char)
    requires sep !in a
    ensures Split(a + [sep] + b, sep) == [a] + Split(b, sep)
  {
    var s := a + [sep] + b;
    if |a| == 0 {
      assert s[1..] == b;
    } else {
      assert s[1..] == a[1..] + [sep] + b;
      SplitAfterPiece(a[1..], b, sep);
      assert [s[0]] + a[1..] == a;
    }
  }

  /** A string without the separator splits into itself alone. */
  lemma {:induction false} SplitWithoutSeparator(a: string, sep: char)
    requires sep !in a
    ensures Split(a, sep) == [a]
  {
    if |a| > 0 {
      SplitWithoutSeparator(a[1..], sep);
      assert [a[0]] + a[1..] == a;
    }
  }

  /** Splitting a join of separator-free pieces gives back the pieces. */
  lemma {:induction false} SplitJoin(pieces: seq<string>, sep: char)
    requires |pieces| >= 1
    requires forall j :: 0 <= j < |pieces| ==> sep !in pieces[j]
    ensures Split(Join(pieces, sep), sep) == pieces
  {
    if |pieces| == 1 {
      SplitWithoutSeparator(pieces[0], sep);
    } else {
      SplitJoin(pieces[1..], sep);
      SplitAfterPiece(pieces[0], Join(pieces[1..], sep), sep);
      assert [pieces[0]] + pieces[1..] == pieces;
    }
  }

  /** Every character of `s` is the separator or white space. */
  predicate OnlySeparatorsAndWhiteSpace(s: string, sep: char)
  {
    forall k :: 0 <= k < |s| ==> s[k] == sep || IsWhiteSpace(s[k])
  }

  /** Every piece is made of white space only. */
  predicate AllPiecesWhiteSpace(pieces: seq<string>)
  {
    forall j :: 0 <= j < |pieces| ==> AllWhiteSpace(pieces[j])
  }

  lemma AllWhiteSpaceCons(c: char, t: string)
    ensures AllWhiteSpace([c] + t) <==> IsWhiteSpace(c) && AllWhiteSpace(t)
  {
    var s := [c] + t;
    assert s[0] == c;
    assert forall k :: 0 <= k < |t| ==> t[k] == s[k + 1];
    assert forall k :: 1 <= k < |s| ==> s[k] == t[k - 1];
  }

  lemma OnlySeparatorsAndWhiteSpaceCons(s: string, sep: char)
    requires |s| > 0
    ensures OnlySeparatorsAndWhiteSpace(s, sep)
        <==> (s[0] == sep || IsWhiteSpace(s[0])) && OnlySeparatorsAndWhiteSpace(s[1..], sep)
  {
    assert forall k :: 0 <= k < |s| - 1 ==> s[1..][k] == s[k + 1];
  }

  lemma AllPiecesWhiteSpaceCons(p: string, ps: seq<string>)
    ensures AllPiecesWhiteSpace([p] + ps) <==> AllWhiteSpace(p) && AllPiecesWhiteSpace(ps)
  {
    var all := [p] + ps;
    assert all[0] == p;
    assert forall j :: 0 <= j < |ps| ==> ps[j] == all[j + 1];
    assert forall j :: 1 <= j < |all| ==> all[j] == ps[j - 1];
  }

  /** A string is made only of separators and white space exactly when every
      piece of its split is white space. */
  lemma {:induction false} SplitAllWhiteSpaceIff(s: string, sep: char)
    ensures OnlySeparatorsAndWhiteSpace(s, sep) <==> AllPiecesWhiteSpace(Split(s, sep))
  {
    if |s| > 0 {
      var rest := Split(s[1..], sep);
      SplitAllWhiteSpaceIff(s[1..], sep);
      OnlySeparatorsAndWhiteSpaceCons(s, sep);
      if s[0] == sep {
        AllPiecesWhiteSpaceCons("", rest);
      } else {
        assert rest == [rest[0]] + rest[1..];
        AllPiecesWhiteSpaceCons(rest[0], rest[1..]);
        AllWhiteSpaceCons(s[0], rest[0]);
        AllPiecesWhiteSpaceCons([s[0]] + rest[0], rest[1..]);
      }
    }
  }

  /** The `/\n/g` replacement: every occurrence of `from` becomes `to`,
      every other character stays in place. */
  function ReplaceAll(s: string, from: char, to: char): (r: string)
    ensures |r| == |s|
    ensures forall k :: 0 <= k < |s| ==> r[k] == if s[k] == from then to else s[k]
    ensures from != to ==> from !in r
  {
    if |s| == 0 then ""
    else [if s[0] == from then to else s[0]] + ReplaceAll(s[1..], from, to)
  }

  predicate IsAsciiUpper(c: char)
  {
    'A' <= c <= 'Z'
  }

  function LowerChar(c: char): (d: char)
    ensures IsAsciiUpper(c) ==> d as int == c as int + 32
    ensures !IsAsciiUpper(c) ==> d == c
  {
    if IsAsciiUpper(c) then (c as int + 32) as char else c
  }

  /** `toLowerCase`, restricted to the ASCII letters A to Z. */
  function ToLower(s: string): (r: string)
    ensures |r| == |s|
    ensures forall k :: 0 <= k < |s| ==> r[k] == LowerChar(s[k])
  {
    if |s| == 0 then "" else [LowerChar(s[0])] + ToLower(s[1..])
  }

  /** Lower-casing leaves no upper-case ASCII letter and is idempotent. */
  lemma ToLowerIdempotent(s: string)
    ensures forall k :: 0 <= k < |ToLower(s)| ==> !IsAsciiUpper(ToLower(s)[k])
    ensures ToLower(ToLower(s)) == ToLower(s)
  {
  }
}
