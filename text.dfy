/** The string operations the thesaurus loader relies on: Python's `str.strip()`,
    `str.split(sep)`, `str.replace('\t', '')` and the segment comprehension of
    `carregar_dicionario_termos`, over strings as `seq<char>`. */
module Text {

  /** Whitespace as `str.strip()` sees it, restricted to six of its ASCII
      members: space, tab, line feed, carriage return, form feed and vertical
      tab. */
  predicate IsSpace(c: char)
  {
    c == ' ' || c == '\t' || c == '\n' || c == '\r' || c == '\U{000C}' || c == '\U{000B}'
  }

  predicate AllSpace(s: string)
  {
    forall k :: 0 <= k < |s| ==> IsSpace(s[k])
  }

  /** Every string of `pieces` is all whitespace. */
  predicate AllBlank(pieces: seq<string>)
  {
    forall j :: 0 <= j < |pieces| ==> AllSpace(pieces[j])
  }

  /** A non-empty string that neither starts nor ends with whitespace. */
  predicate Trimmed(s: string)
  {
    |s| > 0 && !IsSpace(s[0]) && !IsSpace(s[|s| - 1])
  }

  /** The number of whitespace characters `s` starts with. */
  function LeadingSpaces(s: string): (n: nat)
    ensures n <= |s|
  {
    if s == [] || !IsSpace(s[0]) then 0 else 1 + LeadingSpaces(s[1..])
  }

  /** The number of whitespace characters `s` ends with. */
  function TrailingSpaces(s: string): (n: nat)
    ensures n <= |s|
  {
    if s == [] || !IsSpace(s[|s| - 1]) then 0 else 1 + TrailingSpaces(s[..|s| - 1])
  }

  /** `LeadingSpaces(s)` counts a maximal run: whitespace up to it, none at it. */
  lemma {:induction false} LeadingSpacesRun(s: string)
    ensures forall k :: 0 <= k < LeadingSpaces(s) ==> IsSpace(s[k])
    ensures LeadingSpaces(s) < |s| ==> !IsSpace(s[LeadingSpaces(s)])
  {
    if s != [] && IsSpace(s[0]) {
      var n := LeadingSpaces(s);
      LeadingSpacesRun(s[1..]);
      forall k | 0 < k < n ensures IsSpace(s[k]) {
        assert s[k] == s[1..][k - 1];
      }
      if n < |s| {
        assert s[n] == s[1..][n - 1];
      }
    }
  }

  /** `TrailingSpaces(s)` counts a maximal run: whitespace from it on, none
      just before it. */
  lemma {:induction false} TrailingSpacesRun(s: string)
    ensures forall k :: |s| - TrailingSpaces(s) <= k < |s| ==> IsSpace(s[k])
    ensures TrailingSpaces(s) < |s| ==> !IsSpace(s[|s| - 1 - TrailingSpaces(s)])
  {
    if s != [] && IsSpace(s[|s| - 1]) {
      var m := |s| - 1;
      var n := TrailingSpaces(s);
      TrailingSpacesRun(s[..m]);
      forall k | |s| - n <= k < m ensures IsSpace(s[k]) {
        assert s[k] == s[..m][k];
      }
      if n < |s| {
        assert s[m - n] == s[..m][m - n];
      }
    }
  }

  /** `s.strip()`: empty exactly when `s` is all whitespace, otherwise neither
      end is whitespace; it holds no character that `s` does not. */
  function Strip(s: string): (r: string)
    ensures r == [] <==> AllSpace(s)
    ensures r != [] ==> Trimmed(r)
    ensures forall c :: c in r ==> c in s
  {
    var i := LeadingSpaces(s);
    LeadingSpacesRun(s);
    TrailingSpacesRun(s);
    if i == |s| then []
    else
      var j := |s| - TrailingSpaces(s);
      assert i < j;
      var r := s[i..j];
      assert r[0] == s[i] && r[|r| - 1] == s[j - 1];
      assert forall k :: 0 <= k < |r| ==> r[k] == s[i + k];
      r
  }

  /** `Strip(s)` is what is left of `s` once the whitespace at both ends is
      removed: a slice of `s` with only whitespace before and after it. */
  lemma {:induction false} StripTrims(s: string)
    ensures LeadingSpaces(s) + |Strip(s)| <= |s|
    ensures Strip(s) == s[LeadingSpaces(s)..LeadingSpaces(s) + |Strip(s)|]
    ensures AllSpace(s[..LeadingSpaces(s)]) && AllSpace(s[LeadingSpaces(s) + |Strip(s)|..])
  {
    var i := LeadingSpaces(s);
    LeadingSpacesRun(s);
    TrailingSpacesRun(s);
    assert forall k :: 0 <= k < i ==> s[..i][k] == s[k];
    if i < |s| {
      var j := |s| - TrailingSpaces(s);
      assert Strip(s) == s[i..j];
      assert forall k :: 0 <= k < |s| - j ==> s[j..][k] == s[j + k];
    }
  }

  /** `sep.join(pieces)`, the inverse of `Split`. */
  function Join(pieces: seq<string>, sep: char): string
  {
    if |pieces| == 0 then []
    else if |pieces| == 1 then pieces[0]
    else pieces[0] + [sep] + Join(pieces[1..], sep)
  }

  /** `s.split(sep)`: the pieces between the occurrences of `sep`, at least one. */
  function Split(s: string, sep: char): (r: seq<string>)
    ensures |r| >= 1
  {
    if s == [] then [[]]
    else
      var rest := Split(s[1..], sep);
      if s[0] == sep then [[]] + rest
      else [[s[0]] + rest[0]] + rest[1..]
  }

  /** No piece of a split holds the separator. */
  lemma {:induction false} SplitPieces(s: string, sep: char)
    ensures forall k :: 0 <= k < |Split(s, sep)| ==> sep !in Split(s, sep)[k]
  {
    if s != [] {
      SplitPieces(s[1..], sep);
      var rest := Split(s[1..], sep);
      var r := Split(s, sep);
      if s[0] == sep {
        assert forall k :: 0 < k < |r| ==> r[k] == rest[k - 1];
      } else {
        assert forall k :: 0 < k < |r| ==> r[k] == rest[k];
      }
    }
  }

  /** Joining the pieces of a split with the separator gives the string back. */
  lemma {:induction false} JoinSplit(s: string, sep: char)
    ensures Join(Split(s, sep), sep) == s
  {
    if s != [] {
      JoinSplit(s[1..], sep);
      var rest := Split(s[1..], sep);
      var r := Split(s, sep);
      assert s == [s[0]] + s[1..];
      if s[0] == sep {
        assert r[1..] == rest;
      } else {
        assert r[1..] == rest[1..];
        if |rest| > 1 {
          assert rest == [rest[0]] + rest[1..];
        }
      }
    }
  }

  /** Splitting what `Join` produced gives the pieces back. */
  lemma {:induction false} SplitJoin(pieces: seq<string>, sep: char)
    requires |pieces| >= 1
    requires forall k :: 0 <= k < |pieces| ==> sep !in pieces[k]
    ensures Split(Join(pieces, sep), sep) == pieces
  {
    if |pieces| == 1 {
      SplitPiece(pieces[0], sep);
    } else {
      SplitJoin(pieces[1..], sep);
      SplitPrefix(pieces[0], Join(pieces[1..], sep), sep);
      assert pieces == [pieces[0]] + pieces[1..];
    }
  }

  /** A string without `sep` splits into itself alone. */
  lemma {:induction false} SplitPiece(p: string, sep: char)
    requires sep !in p
    ensures Split(p, sep) == [p]
  {
    if p != [] {
      SplitPiece(p[1..], sep);
      assert p == [p[0]] + p[1..];
    }
  }

  /** A piece without `sep` followed by `sep` becomes the first piece of the split. */
  lemma {:induction false} SplitPrefix(p: string, tail: string, sep: char)
    requires sep !in p
    ensures Split(p + [sep] + tail, sep) == [p] + Split(tail, sep)
  {
    var s := p + [sep] + tail;
    if p == [] {
      assert s[1..] == tail;
      assert Split(s, sep) == [[]] + Split(s[1..], sep);
    } else {
      SplitPrefix(p[1..], tail, sep);
      assert s[0] == p[0] && s[1..] == p[1..] + [sep] + tail;
      var rest := Split(s[1..], sep);
      assert rest[0] == p[1..] && rest[1..] == Split(tail, sep);
      assert [p[0]] + p[1..] == p;
      assert Split(s, sep) == [[s[0]] + rest[0]] + rest[1..];
    }
  }

  /** Concatenation is associative. */
  lemma AppendAssoc<T>(x: seq<T>, y: seq<T>, z: seq<T>)
    ensures x + (y + z) == (x + y) + z
  {
  }

  /** `s.replace('\t', '')`: the characters of `s` that are not tabs, in order. */
  function RemoveTabs(s: string): (r: string)
    ensures '\t' !in s ==> r == s
    ensures s != [] && s[0] != '\t' ==> r != [] && r[0] == s[0]
    ensures s != [] && s[|s| - 1] != '\t' ==> r != [] && r[|r| - 1] == s[|s| - 1]
  {
    if s == [] then []
    else (if s[0] == '\t' then [] else [s[0]]) + RemoveTabs(s[1..])
  }

  /** A character survives tab removal exactly when it occurs in `s` and is
      not a tab. */
  lemma {:induction false} RemoveTabsChars(s: string)
    ensures forall c :: c in RemoveTabs(s) <==> c in s && c != '\t'
  {
    if s != [] {
      RemoveTabsChars(s[1..]);
      assert s == [s[0]] + s[1..];
    }
  }

  /** Removing tabs works piecewise. With the one-character cases (a tab goes,
      any other character stays), this pins the result down to the non-tab
      characters of `s`, in order and with their multiplicity. */
  lemma {:induction false} RemoveTabsAppend(a: string, b: string)
    ensures RemoveTabs(a + b) == RemoveTabs(a) + RemoveTabs(b)
  {
    if a == [] {
      assert a + b == b;
    } else {
      var head := if a[0] == '\t' then [] else [a[0]];
      assert (a + b)[0] == a[0] && (a + b)[1..] == a[1..] + b;
      calc {
        RemoveTabs(a + b);
        head + RemoveTabs(a[1..] + b);
        { RemoveTabsAppend(a[1..], b); }
        head + (RemoveTabs(a[1..]) + RemoveTabs(b));
        { AppendAssoc(head, RemoveTabs(a[1..]), RemoveTabs(b)); }
        (head + RemoveTabs(a[1..])) + RemoveTabs(b);
        RemoveTabs(a) + RemoveTabs(b);
      }
    }
  }

  /** `[p.strip() for p in pieces if p.strip()]`: every segment kept is trimmed. */
  function NonBlank(pieces: seq<string>): (r: seq<string>)
    ensures |r| <= |pieces|
    ensures forall k :: 0 <= k < |r| ==> Trimmed(r[k])
  {
    if pieces == [] then []
    else
      var s := Strip(pieces[0]);
      var rest := NonBlank(pieces[1..]);
      if s == [] then rest
      else
        var r := [s] + rest;
        assert forall k :: 0 < k < |r| ==> r[k] == rest[k - 1];
        r
  }

  /** No segment survives exactly when every piece is blank. */
  lemma {:induction false} NonBlankEmpty(pieces: seq<string>)
    ensures NonBlank(pieces) == [] <==> AllBlank(pieces)
  {
    if pieces != [] {
      NonBlankEmpty(pieces[1..]);
      assert forall j :: 0 < j < |pieces| ==> pieces[j] == pieces[1..][j - 1];
    }
  }

  /** The comprehension works piece by piece: the segments of `a + b` are
      those of `a` followed by those of `b`. */
  lemma {:induction false} NonBlankAppend(a: seq<string>, b: seq<string>)
    ensures NonBlank(a + b) == NonBlank(a) + NonBlank(b)
  {
    if a == [] {
      assert a + b == b;
    } else {
      var head := if Strip(a[0]) == [] then [] else [Strip(a[0])];
      assert NonBlank(a + b) == head + NonBlank(a[1..] + b) by {
        assert a + b == [a[0]] + (a[1..] + b);
        NonBlankCons(a[0], a[1..] + b);
      }
      assert NonBlank(a) == head + NonBlank(a[1..]) by {
        assert a == [a[0]] + a[1..];
        NonBlankCons(a[0], a[1..]);
      }
      calc {
        NonBlank(a + b);
        head + NonBlank(a[1..] + b);
        { NonBlankAppend(a[1..], b); }
        head + (NonBlank(a[1..]) + NonBlank(b));
        { AppendAssoc(head, NonBlank(a[1..]), NonBlank(b)); }
        (head + NonBlank(a[1..])) + NonBlank(b);
        NonBlank(a) + NonBlank(b);
      }
    }
  }

  /** The comprehension on a piece followed by more pieces. */
  lemma {:induction false} NonBlankCons(p: string, rest: seq<string>)
    ensures NonBlank([p] + rest) == (if Strip(p) == [] then [] else [Strip(p)]) + NonBlank(rest)
  {
    assert ([p] + rest)[0] == p && ([p] + rest)[1..] == rest;
  }

  /** Two non-blank pieces give their two strips. */
  lemma {:induction false} NonBlankTwo(x: string, y: string)
    requires Strip(x) != [] && Strip(y) != []
    ensures NonBlank([x, y]) == [Strip(x), Strip(y)]
  {
    assert [x, y][1..] == [y];
    assert [y][1..] == [];
    assert NonBlank([y]) == [Strip(y)];
  }

  /** Three non-blank pieces give their three strips. */
  lemma {:induction false} NonBlankThree(x: string, y: string, z: string)
    requires Strip(x) != [] && Strip(y) != [] && Strip(z) != []
    ensures NonBlank([x, y, z]) == [Strip(x), Strip(y), Strip(z)]
  {
    assert [x, y, z][1..] == [y, z];
    NonBlankTwo(y, z);
  }

  /** A blank piece, wherever it stands, contributes no segment. */
  lemma {:induction false} BlankPieceDropped(a: seq<string>, z: string, b: seq<string>)
    requires AllSpace(z)
    ensures NonBlank(a + [z] + b) == NonBlank(a) + NonBlank(b)
  {
    NonBlankAppend(a + [z], b);
    NonBlankAppend(a, [z]);
    NonBlankOne(z);
    assert NonBlank(a) + [] == NonBlank(a);
  }

  /** One piece gives its strip as its segment, or nothing when it is blank.
      With `NonBlankAppend`, the segments are the strips of the non-blank
      pieces, in order. */
  lemma {:induction false} NonBlankOne(p: string)
    ensures NonBlank([p]) == if Strip(p) == [] then [] else [Strip(p)]
  {
    assert [p][1..] == [];
  }

  /** Stripping and filtering introduce no character: a separator absent from
      every piece is absent from every segment. */
  lemma {:induction false} NonBlankKeepsOut(pieces: seq<string>, sep: char)
    requires forall j :: 0 <= j < |pieces| ==> sep !in pieces[j]
    ensures forall k :: 0 <= k < |NonBlank(pieces)| ==> sep !in NonBlank(pieces)[k]
  {
    if pieces != [] {
      NonBlankKeepsOut(pieces[1..], sep);
      var r := NonBlank(pieces);
      var rest := NonBlank(pieces[1..]);
      if Strip(pieces[0]) != [] {
        assert forall k :: 0 < k < |r| ==> r[k] == rest[k - 1];
      }
    }
  }

  /** The stripped, non-blank `>`-separated segments of a line: each trimmed
      and free of `>`. */
  function Segments(line: string): (r: seq<string>)
    ensures forall k :: 0 <= k < |r| ==> Trimmed(r[k]) && '>' !in r[k]
  {
    var pieces := Split(line, '>');
    SplitPieces(line, '>');
    NonBlankKeepsOut(pieces, '>');
    NonBlank(pieces)
  }

  /** A line has no segments exactly when every piece of its split is blank. */
  lemma {:induction false} NoSegments(line: string)
    ensures Segments(line) == [] <==> AllBlank(Split(line, '>'))
  {
    var pieces := Split(line, '>');
    NonBlankEmpty(pieces);
    assert Segments(line) == NonBlank(pieces);
  }

  /** The segments of pieces joined by `>` (none holding `>`) are the
      comprehension applied to those pieces. */
  lemma {:induction false} SegmentsOfJoin(pieces: seq<string>)
    requires |pieces| >= 1
    requires forall k :: 0 <= k < |pieces| ==> '>' !in pieces[k]
    ensures Segments(Join(pieces, '>')) == NonBlank(pieces)
  {
    SplitJoin(pieces, '>');
  }

  /** A string that is already trimmed is its own strip. */
  lemma {:induction false} StripTrimmed(s: string)
    requires Trimmed(s)
    ensures Strip(s) == s
  {
    assert LeadingSpaces(s) == 0 && TrailingSpaces(s) == 0;
    assert s[0..|s|] == s;
  }

  /** Whitespace put before a string that does not start with whitespace is
      exactly its leading run. */
  lemma {:induction false} LeadingPad(pad: string, t: string)
    requires AllSpace(pad) && (t == [] || !IsSpace(t[0]))
    ensures LeadingSpaces(pad + t) == |pad|
  {
    if pad != [] {
      LeadingPad(pad[1..], t);
      assert (pad + t)[0] == pad[0] && (pad + t)[1..] == pad[1..] + t;
    } else {
      assert pad + t == t;
    }
  }

  /** Whitespace put after a string that does not end with whitespace is
      exactly its trailing run. */
  lemma {:induction false} TrailingPad(t: string, pad: string)
    requires AllSpace(pad) && (t == [] || !IsSpace(t[|t| - 1]))
    ensures TrailingSpaces(t + pad) == |pad|
  {
    if pad != [] {
      var m := |pad| - 1;
      TrailingPad(t, pad[..m]);
      assert (t + pad)[..|t + pad| - 1] == t + pad[..m];
      assert (t + pad)[|t + pad| - 1] == pad[m];
    } else {
      assert t + pad == t;
    }
  }

  /** Stripping removes exactly the whitespace put around a trimmed string. */
  lemma {:induction false} StripPadded(before: string, s: string, after: string)
    requires AllSpace(before) && AllSpace(after) && Trimmed(s)
    ensures Strip(before + s + after) == s
  {
    var t := before + s + after;
    assert t == before + (s + after);
    LeadingPad(before, s + after);
    TrailingPad(before + s, after);
    assert t[|before|] == s[0];
    assert t[|before|..|t| - |after|] == s;
  }

  /** One space on either side, or both, is stripped off again. */
  lemma {:induction false} StripSpaced(s: string)
    requires Trimmed(s)
    ensures Strip(s + " ") == s && Strip(" " + s) == s && Strip(" " + s + " ") == s
  {
    StripPadded([], s, " ");
    StripPadded(" ", s, []);
    StripPadded(" ", s, " ");
    assert [] + s + " " == s + " " && " " + s + [] == " " + s;
  }

  /** Pieces that are already trimmed pass through as segments unchanged. */
  lemma {:induction false} NonBlankTrimmed(pieces: seq<string>)
    requires forall j :: 0 <= j < |pieces| ==> Trimmed(pieces[j])
    ensures NonBlank(pieces) == pieces
  {
    if pieces != [] {
      StripTrimmed(pieces[0]);
      NonBlankTrimmed(pieces[1..]);
      assert pieces == [pieces[0]] + pieces[1..];
    }
  }

  /** Joining trimmed pieces gives a trimmed string that starts with the first piece. */
  lemma {:induction false} JoinTrimmed(pieces: seq<string>, sep: char)
    requires |pieces| >= 1 && !IsSpace(sep)
    requires forall j :: 0 <= j < |pieces| ==> Trimmed(pieces[j])
    ensures Trimmed(Join(pieces, sep))
    ensures pieces[0] <= Join(pieces, sep)
  {
    if |pieces| > 1 {
      JoinTrimmed(pieces[1..], sep);
    }
  }

  /** Every character of every piece occurs in the joined string. */
  lemma {:induction false} JoinCovers(pieces: seq<string>, sep: char)
    ensures forall k, c :: 0 <= k < |pieces| && c in pieces[k] ==> c in Join(pieces, sep)
  {
    if |pieces| > 1 {
      JoinCovers(pieces[1..], sep);
      forall k, c | 0 <= k < |pieces| && c in pieces[k] ensures c in Join(pieces, sep) {
        if k > 0 {
          assert pieces[k] == pieces[1..][k - 1];
        }
      }
    }
  }

  /** A string of nothing but separators and whitespace splits into blank pieces. */
  lemma {:induction false} SeparatorsAndSpace(s: string, sep: char)
    requires forall c :: c in s ==> c == sep || IsSpace(c)
    ensures AllBlank(Split(s, sep))
  {
    var pieces := Split(s, sep);
    JoinSplit(s, sep);
    SplitPieces(s, sep);
    JoinCovers(pieces, sep);
    forall j | 0 <= j < |pieces| ensures AllSpace(pieces[j]) {
      forall k | 0 <= k < |pieces[j]| ensures IsSpace(pieces[j][k]) {
        assert pieces[j][k] in pieces[j];
      }
    }
  }
}
