/** The thesaurus loader of `carregar_dicionario_termos`: each data line
    `A > B > C` contributes its last segment to the flat term list and, when it
    has two or more segments, one edge from its second-to-last segment to that
    term in the parent-to-children map. */
module HierarchyLoader {
  import opened Text

  type Term = string

  /** A Python dict from parent to child list, keeping its insertion order:
      `order` lists the keys in the order they were first inserted. */
  datatype Hierarchy = Hierarchy(order: seq<Term>, children: map<Term, seq<Term>>)
  {
    /** The keys are listed once each, and exactly the listed keys are mapped. */
    predicate Valid()
    {
      && (forall i, j :: 0 <= i < j < |order| ==> order[i] != order[j])
      && (forall p :: p in order ==> p in children)
      && (forall p :: p in children ==> p in order)
    }
  }

  const Empty: Hierarchy := Hierarchy([], map[])

  /** What one line of the source contributes. */
  datatype Line =
    | Skipped                         // blank, comment, or only `>` and whitespace
    | Leaf(term: Term)                // one segment: a term without a parent
    | Edge(parent: Term, term: Term)  // two or more segments: the last two

  /** The meaning of one source line (teste_txt.py:13-27). */
  function ParseLine(line: string): Line
  {
    var s := Strip(line);
    if s == [] || s[0] == '#' then Skipped else FromSegments(Segments(s))
  }

  /** The contribution of a line with segments `parts`: nothing when there are
      none, else the last one without tabs, linked to the one before it if any. */
  function FromSegments(parts: seq<string>): Line
  {
    if parts == [] then Skipped
    else if |parts| == 1 then Leaf(RemoveTabs(parts[0]))
    else Edge(RemoveTabs(parts[|parts| - 2]), RemoveTabs(parts[|parts| - 1]))
  }

  /** The meaning of each line, in order. */
  function ParseLines(lines: seq<string>): seq<Line>
  {
    seq(|lines|, i requires 0 <= i < |lines| => ParseLine(lines[i]))
  }

  lemma {:induction false} ParseNextLine(lines: seq<string>, i: nat)
    requires i < |lines|
    ensures ParseLines(lines[..i + 1]) == ParseLines(lines[..i]) + [ParseLine(lines[i])]
  {
    var a, b := ParseLines(lines[..i + 1]), ParseLines(lines[..i]) + [ParseLine(lines[i])];
    forall k | 0 <= k <= i ensures a[k] == b[k] {
      assert lines[..i + 1][k] == if k < i then lines[..i][k] else lines[i];
    }
  }

  /** The terms contributed by the lines `ls`, in order. */
  function TermsOf(ls: seq<Line>): seq<Term>
    decreases |ls|
  {
    if ls == [] then []
    else
      var before := TermsOf(ls[..|ls| - 1]);
      match ls[|ls| - 1]
      case Skipped => before
      case Leaf(t) => before + [t]
      case Edge(_, t) => before + [t]
  }

  /** The parent-child edges contributed by the lines `ls`, in order. */
  function EdgesOf(ls: seq<Line>): seq<(Term, Term)>
    decreases |ls|
  {
    if ls == [] then []
    else
      var before := EdgesOf(ls[..|ls| - 1]);
      match ls[|ls| - 1]
      case Edge(p, t) => before + [(p, t)]
      case _ => before
  }

  /** `if p not in h: h[p] = []` then `h[p].append(c)`: a new parent goes to the end
      of the key order. */
  function AddEdge(h: Hierarchy, p: Term, c: Term): Hierarchy
  {
    if p in h.children then Hierarchy(h.order, h.children[p := h.children[p] + [c]])
    else Hierarchy(h.order + [p], h.children[p := [c]])
  }

  /** The map obtained by inserting `edges` in order into an empty dict. */
  function Build(edges: seq<(Term, Term)>): Hierarchy
    decreases |edges|
  {
    if edges == [] then Empty
    else
      var e := edges[|edges| - 1];
      AddEdge(Build(edges[..|edges| - 1]), e.0, e.1)
  }

  /** The term list after reading `lines`. */
  function Terms(lines: seq<string>): seq<Term>
  {
    TermsOf(ParseLines(lines))
  }

  /** The parent-to-children map after reading `lines`. */
  function HierarchyOf(lines: seq<string>): Hierarchy
  {
    Build(EdgesOf(ParseLines(lines)))
  }

  /** Reading one more line extends the term list and the edges by what that
      line contributes: nothing for a skipped line, its term for a leaf, its
      term and one edge for a line with a parent. */
  lemma {:induction false} ReadLine(ls: seq<Line>, l: Line)
    ensures l.Skipped? ==> TermsOf(ls + [l]) == TermsOf(ls) && EdgesOf(ls + [l]) == EdgesOf(ls)
    ensures l.Leaf? ==> TermsOf(ls + [l]) == TermsOf(ls) + [l.term] && EdgesOf(ls + [l]) == EdgesOf(ls)
    ensures l.Edge? ==>
      && TermsOf(ls + [l]) == TermsOf(ls) + [l.term]
      && EdgesOf(ls + [l]) == EdgesOf(ls) + [(l.parent, l.term)]
      && Build(EdgesOf(ls + [l])) == AddEdge(Build(EdgesOf(ls)), l.parent, l.term)
  {
    assert (ls + [l])[..|ls|] == ls;
    if l.Edge? {
      var edges := EdgesOf(ls) + [(l.parent, l.term)];
      assert edges[..|edges| - 1] == EdgesOf(ls);
    }
  }

  /** The two in-place steps of teste_txt.py:25-27 (create the key if absent,
      then append) leave the dict that `AddEdge` describes. */
  lemma {:induction false} AddEdgeInPlace(before: Hierarchy, p: Term, c: Term, after: Hierarchy)
    requires after.order == (if p in before.children then before.order else before.order + [p])
    requires after.children ==
      (var created := if p in before.children then before.children else before.children[p := []];
       created[p := created[p] + [c]])
    ensures after == AddEdge(before, p, c)
  {
    if p !in before.children {
      assert [] + [c] == [c];
    }
  }

  /** Where the lines come from: a missing file, a file that cannot be opened for
      another reason or that fails while being read or decoded, or the lines of a
      readable file. */
  datatype Source = Missing | Unreadable(cause: string) | Readable(lines: seq<string>)

  /** The error the loader reports next to its empty fallback result. */
  datatype Status = Loaded | SourceNotFound | SourceReadError(cause: string)

  /** `carregar_dicionario_termos`: reads the source line by line, appending to
      the term list and updating the parent-to-children map in place. A source
      that cannot be opened or read yields an empty list and map and an error. */
  method LoadDictionary(source: Source) returns (terms: seq<Term>, hierarchy: Hierarchy, status: Status)
    ensures source.Missing? ==> terms == [] && hierarchy == Empty && status == SourceNotFound
    ensures source.Unreadable? ==> terms == [] && hierarchy == Empty && status == SourceReadError(source.cause)
    ensures source.Readable? ==>
      status == Loaded && terms == Terms(source.lines) && hierarchy == HierarchyOf(source.lines)
  {
    if source.Missing? {
      return [], Empty, SourceNotFound;
    } else if source.Unreadable? {
      return [], Empty, SourceReadError(source.cause);
    }
    var lines := source.lines;
    terms := [];
    var order: seq<Term> := [];
    var children: map<Term, seq<Term>> := map[];
    for i := 0 to |lines|
      invariant terms == Terms(lines[..i])
      invariant Hierarchy(order, children) == HierarchyOf(lines[..i])
    {
      ghost var parsed := ParseLine(lines[i]);
      ParseNextLine(lines, i);
      ReadLine(ParseLines(lines[..i]), parsed);
      ghost var before := Hierarchy(order, children);
      var line := Strip(lines[i]);
      if line == [] || line[0] == '#' {
        assert parsed == Skipped;
        continue;
      }
      var parts := Segments(line);
      if parts == [] {
        assert parsed == Skipped;
        continue;
      }
      var term := parts[|parts| - 1];
      if term != [] {
        term := RemoveTabs(term);
        terms := terms + [term];
      }
      if |parts| > 1 {
        var parent := RemoveTabs(parts[|parts| - 2]);
        assert parsed == Edge(parent, term);
        if parent !in children {
          order := order + [parent];
          children := children[parent := []];
        }
        children := children[parent := children[parent] + [term]];
        AddEdgeInPlace(before, parent, term, Hierarchy(order, children));
      } else {
        assert parsed == Leaf(term);
      }
    }
    assert lines[..|lines|] == lines;
    hierarchy := Hierarchy(order, children);
    status := Loaded;
  }


  // ---------------------------------------------------------------------------
  // Properties of a single line

  /** A usable term: non-empty, neither starting nor ending with whitespace,
      and free of tabs and of the separator `>`. */
  predicate IsTerm(t: string)
  {
    Trimmed(t) && '\t' !in t && '>' !in t
  }

  /** Every term and every parent a line names is a usable term. */
  predicate UsableLine(l: Line)
  {
    && (l.Leaf? ==> IsTerm(l.term))
    && (l.Edge? ==> IsTerm(l.parent) && IsTerm(l.term))
  }

  /** A line adds nothing exactly when, once stripped, it is empty, starts with
      `#`, or every `>`-separated piece of it is blank (teste_txt.py:13-18). */
  lemma {:induction false} SkippedLines(line: string)
    ensures ParseLine(line).Skipped? <==>
      var s := Strip(line);
      s == [] || s[0] == '#' || AllBlank(Split(s, '>'))
  {
    NoSegments(Strip(line));
  }

  /** The term a line contributes, and the parent it names, are stripped
      segments with their tabs removed, hence usable terms (teste_txt.py:16-24). */
  lemma {:induction false} ParsedTerms(line: string)
    ensures UsableLine(ParseLine(line))
  {
    var s := Strip(line);
    if s != [] && s[0] != '#' {
      SegmentTerms(Segments(s));
    }
  }

  /** The terms read from trimmed, `>`-free segments are usable terms. */
  lemma {:induction false} SegmentTerms(parts: seq<string>)
    requires forall k :: 0 <= k < |parts| ==> Trimmed(parts[k]) && '>' !in parts[k]
    ensures UsableLine(FromSegments(parts))
  {
    if parts != [] {
      TabFreeSegment(parts[|parts| - 1]);
      if |parts| > 1 {
        TabFreeSegment(parts[|parts| - 2]);
      }
    }
  }

  /** Removing the tabs of a trimmed, `>`-free segment leaves a usable term. */
  lemma {:induction false} TabFreeSegment(seg: string)
    requires Trimmed(seg) && '>' !in seg
    ensures IsTerm(RemoveTabs(seg))
  {
    RemoveTabsChars(seg);
  }

  // ---------------------------------------------------------------------------
  // Properties of the term list

  /** The positions of the lines not skipped, in increasing order. */
  function EntryLines(ls: seq<Line>): seq<nat>
    decreases |ls|
  {
    if ls == [] then []
    else EntryLines(ls[..|ls| - 1]) + (if ls[|ls| - 1].Skipped? then [] else [|ls| - 1])
  }

  /** The entry lines are, in increasing order, exactly the lines not skipped. */
  lemma {:induction false} EntryLinesAreEntries(ls: seq<Line>)
    ensures forall k :: 0 <= k < |EntryLines(ls)| ==> EntryLines(ls)[k] < |ls| && !ls[EntryLines(ls)[k]].Skipped?
    ensures forall k, k' :: 0 <= k < k' < |EntryLines(ls)| ==> EntryLines(ls)[k] < EntryLines(ls)[k']
    ensures forall i :: 0 <= i < |ls| && !ls[i].Skipped? ==> i in EntryLines(ls)
  {
    if ls != [] {
      var n := |ls| - 1;
      var init := ls[..n];
      EntryLinesAreEntries(init);
      var e0, e := EntryLines(init), EntryLines(ls);
      assert e == e0 + (if ls[n].Skipped? then [] else [n]);
      forall k | 0 <= k < |e| ensures e[k] < |ls| && !ls[e[k]].Skipped? {
        if k < |e0| {
          assert init[e0[k]] == ls[e0[k]];
        }
      }
      forall i | 0 <= i < |ls| && !ls[i].Skipped? ensures i in e {
        if i < n {
          assert init[i] == ls[i];
          assert i in e0;
        } else {
          assert e[|e| - 1] == n;
        }
      }
    }
  }

  /** The term list holds one term per line not skipped, in line order and with
      duplicates kept: its k-th term is the term of the k-th such line
      (teste_txt.py:19-22). */
  lemma {:induction false} TermsFollowLines(ls: seq<Line>)
    ensures |TermsOf(ls)| == |EntryLines(ls)|
    ensures forall k :: 0 <= k < |EntryLines(ls)| ==>
      EntryLines(ls)[k] < |ls| && !ls[EntryLines(ls)[k]].Skipped? && TermsOf(ls)[k] == ls[EntryLines(ls)[k]].term
  {
    if ls != [] {
      var n := |ls| - 1;
      var init := ls[..n];
      TermsFollowLines(init);
      ReadLine(init, ls[n]);
      assert init + [ls[n]] == ls;
      var e0, t0 := EntryLines(init), TermsOf(init);
      var e, t := EntryLines(ls), TermsOf(ls);
      if ls[n].Skipped? {
        assert e == e0 && t == t0;
      } else {
        assert e == e0 + [n] && t == t0 + [ls[n].term];
      }
      forall k | 0 <= k < |e|
        ensures e[k] < |ls| && !ls[e[k]].Skipped? && t[k] == ls[e[k]].term
      {
        if k < |e0| {
          assert e[k] == e0[k] && t[k] == t0[k];
          assert init[e0[k]] == ls[e0[k]];
        }
      }
    }
  }

  /** Every term read from usable lines is a usable term. */
  lemma {:induction false} TermsAreTerms(ls: seq<Line>)
    requires forall i :: 0 <= i < |ls| ==> UsableLine(ls[i])
    ensures forall k :: 0 <= k < |TermsOf(ls)| ==> IsTerm(TermsOf(ls)[k])
  {
    if ls != [] {
      var n := |ls| - 1;
      TermsAreTerms(ls[..n]);
      ReadLine(ls[..n], ls[n]);
      assert ls[..n] + [ls[n]] == ls;
    }
  }

  /** Every term of a loaded term list is a usable term: non-empty even after
      stripping, without tabs and without `>`. */
  lemma {:induction false} LoadedTerms(lines: seq<string>)
    ensures forall k :: 0 <= k < |Terms(lines)| ==> IsTerm(Terms(lines)[k])
  {
    var ls := ParseLines(lines);
    forall i | 0 <= i < |ls| ensures UsableLine(ls[i]) {
      ParsedTerms(lines[i]);
    }
    TermsAreTerms(ls);
  }

  /** Lines that are all skipped load an empty term list and an empty map. */
  lemma {:induction false} SkippedOnly(ls: seq<Line>)
    requires forall i :: 0 <= i < |ls| ==> ls[i].Skipped?
    ensures TermsOf(ls) == [] && Build(EdgesOf(ls)) == Empty
  {
    if ls != [] {
      var n := |ls| - 1;
      SkippedOnly(ls[..n]);
      ReadLine(ls[..n], ls[n]);
      assert ls[..n] + [ls[n]] == ls;
    }
  }

  /** A source of nothing but blank lines and `#` comments loads an empty term
      list and an empty map (and, read by `LoadDictionary`, the status
      `Loaded`, unlike a missing source). */
  lemma {:induction false} CommentsOnly(lines: seq<string>)
    requires forall i :: 0 <= i < |lines| ==> Strip(lines[i]) == [] || Strip(lines[i])[0] == '#'
    ensures Terms(lines) == [] && HierarchyOf(lines) == Empty
  {
    SkippedOnly(ParseLines(lines));
  }

  // ---------------------------------------------------------------------------
  // Properties of the edges

  /** Each edge comes from one line with a parent (teste_txt.py:23-27). */
  lemma {:induction false} EdgesFromLines(ls: seq<Line>)
    ensures forall k :: 0 <= k < |EdgesOf(ls)| ==> Edge(EdgesOf(ls)[k].0, EdgesOf(ls)[k].1) in ls
  {
    if ls != [] {
      var n := |ls| - 1;
      var init := ls[..n];
      EdgesFromLines(init);
      ReadLine(init, ls[n]);
      assert init + [ls[n]] == ls;
      var edges, e0 := EdgesOf(ls), EdgesOf(init);
      if ls[n].Edge? {
        assert edges == e0 + [(ls[n].parent, ls[n].term)];
      } else {
        assert edges == e0;
      }
      forall k | 0 <= k < |edges| ensures Edge(edges[k].0, edges[k].1) in ls {
        if k < |e0| {
          assert edges[k] == e0[k];
        }
      }
    }
  }

  /** Every line with a parent gives its edge (teste_txt.py:23-27). */
  lemma {:induction false} LinesGiveEdges(ls: seq<Line>)
    ensures forall i :: 0 <= i < |ls| && ls[i].Edge? ==> (ls[i].parent, ls[i].term) in EdgesOf(ls)
  {
    if ls != [] {
      var n := |ls| - 1;
      var init := ls[..n];
      LinesGiveEdges(init);
      ReadLine(init, ls[n]);
      assert init + [ls[n]] == ls;
      forall i | 0 <= i < |ls| && ls[i].Edge? ensures (ls[i].parent, ls[i].term) in EdgesOf(ls) {
        if i < n {
          assert init[i] == ls[i];
        }
      }
    }
  }

  /** Each edge's child is also on the term list, so there are no more edges
      than terms (teste_txt.py:21-27). */
  lemma {:induction false} EdgeChildrenAreTerms(ls: seq<Line>)
    ensures forall k :: 0 <= k < |EdgesOf(ls)| ==> EdgesOf(ls)[k].1 in TermsOf(ls)
    ensures |EdgesOf(ls)| <= |TermsOf(ls)|
  {
    if ls != [] {
      var n := |ls| - 1;
      var init := ls[..n];
      EdgeChildrenAreTerms(init);
      ReadLine(init, ls[n]);
      assert init + [ls[n]] == ls;
      var edges, e0 := EdgesOf(ls), EdgesOf(init);
      forall k | 0 <= k < |edges| ensures edges[k].1 in TermsOf(ls) {
        if k < |e0| {
          assert edges[k] == e0[k];
        }
      }
    }
  }

  // ---------------------------------------------------------------------------
  // Properties of the map

  /** The children recorded for `p` by `edges`, in insertion order. */
  function ChildrenIn(edges: seq<(Term, Term)>, p: Term): seq<Term>
    decreases |edges|
  {
    if edges == [] then []
    else
      var e := edges[|edges| - 1];
      ChildrenIn(edges[..|edges| - 1], p) + (if e.0 == p then [e.1] else [])
  }

  /** The parents of `edges`, in order. */
  function ParentsOf(edges: seq<(Term, Term)>): (ps: seq<Term>)
    ensures |ps| == |edges|
    decreases |edges|
  {
    if edges == [] then [] else ParentsOf(edges[..|edges| - 1]) + [edges[|edges| - 1].0]
  }

  /** Inserting edges gives a well-formed dict whose keys are exactly the
      parents of the edges (teste_txt.py:25-26). */
  lemma {:induction false} BuildKeys(edges: seq<(Term, Term)>)
    ensures Build(edges).Valid()
    ensures forall p :: p in Build(edges).children <==> p in ParentsOf(edges)
  {
    if edges != [] {
      var n := |edges| - 1;
      var e := edges[n];
      BuildKeys(edges[..n]);
      var h0, h := Build(edges[..n]), Build(edges);
      assert h == AddEdge(h0, e.0, e.1);
      assert ParentsOf(edges) == ParentsOf(edges[..n]) + [e.0];
    }
  }

  /** A term that is no parent has no children. */
  lemma {:induction false} NoChildren(edges: seq<(Term, Term)>, p: Term)
    requires p !in ParentsOf(edges)
    ensures ChildrenIn(edges, p) == []
  {
    if edges != [] {
      var n := |edges| - 1;
      assert ParentsOf(edges) == ParentsOf(edges[..n]) + [edges[n].0];
      NoChildren(edges[..n], p);
    }
  }

  /** Each key is mapped to its non-empty list of children in insertion order
      (teste_txt.py:25-27). */
  lemma {:induction false} BuildChildren(edges: seq<(Term, Term)>)
    ensures forall p :: p in Build(edges).children ==>
      Build(edges).children[p] == ChildrenIn(edges, p) && Build(edges).children[p] != []
  {
    if edges != [] {
      var n := |edges| - 1;
      var init := edges[..n];
      var e := edges[n];
      BuildChildren(init);
      BuildKeys(init);
      var h0, h := Build(init), Build(edges);
      assert h == AddEdge(h0, e.0, e.1);
      forall p | p in h.children ensures h.children[p] == ChildrenIn(edges, p) && h.children[p] != [] {
        if p != e.0 {
          assert ChildrenIn(edges, p) == ChildrenIn(init, p) + [];
        } else {
          if p !in h0.children {
            NoChildren(init, p);
          }
          assert ChildrenIn(edges, p) == ChildrenIn(init, p) + [e.1];
        }
      }
    }
  }

  /** `ps` without repetitions, each kept where it first occurs. */
  function FirstOccurrences(ps: seq<Term>): seq<Term>
    decreases |ps|
  {
    if ps == [] then []
    else
      var firsts := FirstOccurrences(ps[..|ps| - 1]);
      if ps[|ps| - 1] in firsts then firsts else firsts + [ps[|ps| - 1]]
  }

  /** The keys are listed in the order in which each parent first occurs among
      the edges, as a Python dict keeps them (teste_txt.py:25-26). */
  lemma {:induction false} BuildOrder(edges: seq<(Term, Term)>)
    ensures Build(edges).order == FirstOccurrences(ParentsOf(edges))
  {
    if edges != [] {
      var n := |edges| - 1;
      BuildOrder(edges[..n]);
      BuildKeys(edges[..n]);
      var ps := ParentsOf(edges);
      assert ps[..n] == ParentsOf(edges[..n]);
    }
  }

  /** A child recorded for `p` is the child of some edge. */
  lemma {:induction false} ChildrenAreEdges(edges: seq<(Term, Term)>, p: Term, c: Term)
    requires c in ChildrenIn(edges, p)
    ensures exists k :: 0 <= k < |edges| && edges[k] == (p, c)
  {
    var n := |edges| - 1;
    if c in ChildrenIn(edges[..n], p) {
      ChildrenAreEdges(edges[..n], p, c);
      var k :| 0 <= k < n && edges[..n][k] == (p, c);
      assert edges[k] == (p, c);
    } else {
      assert edges[n] == (p, c);
    }
  }

  /** The loaded map is a well-formed dict; every key has a non-empty child
      list; every child is on the term list; and there are no more edges than
      terms. */
  lemma {:induction false} LoadedHierarchy(lines: seq<string>)
    ensures HierarchyOf(lines).Valid()
    ensures forall p :: p in HierarchyOf(lines).children ==> HierarchyOf(lines).children[p] != []
    ensures forall p, c :: p in HierarchyOf(lines).children && c in HierarchyOf(lines).children[p] ==> c in Terms(lines)
    ensures |EdgesOf(ParseLines(lines))| <= |Terms(lines)|
  {
    var ls := ParseLines(lines);
    var edges := EdgesOf(ls);
    BuildKeys(edges);
    BuildChildren(edges);
    EdgeChildrenAreTerms(ls);
    forall p, c | p in HierarchyOf(lines).children && c in HierarchyOf(lines).children[p]
      ensures c in Terms(lines)
    {
      ChildrenAreEdges(edges, p, c);
    }
  }

  // ---------------------------------------------------------------------------
  // Lines written from segments, and examples

  /** Parsing inverts writing a chain: a line made of usable terms joined by
      `>` (the first not starting with `#`) yields its last term, linked to the
      term before it when there is one. */
  lemma {:induction false} ParseJoined(parts: seq<Term>)
    requires |parts| >= 1
    requires forall k :: 0 <= k < |parts| ==> IsTerm(parts[k])
    requires !(['#'] <= parts[0])
    ensures |parts| == 1 ==> ParseLine(Join(parts, '>')) == Leaf(parts[0])
    ensures |parts| > 1 ==> ParseLine(Join(parts, '>')) == Edge(parts[|parts| - 2], parts[|parts| - 1])
  {
    var line := Join(parts, '>');
    JoinTrimmed(parts, '>');
    StripTrimmed(line);
    SplitJoin(parts, '>');
    NonBlankTrimmed(parts);
    assert Segments(line) == parts;
  }

  /** A line that is already trimmed and does not start with `#` contributes
      what its stripped, non-blank `>`-pieces give, whatever whitespace and
      empty pieces lie between them. */
  lemma {:induction false} ParsePieces(pieces: seq<string>)
    requires |pieces| >= 1
    requires forall k :: 0 <= k < |pieces| ==> '>' !in pieces[k]
    requires Trimmed(Join(pieces, '>')) && Join(pieces, '>')[0] != '#'
    ensures ParseLine(Join(pieces, '>')) == FromSegments(NonBlank(pieces))
  {
    StripTrimmed(Join(pieces, '>'));
    SegmentsOfJoin(pieces);
  }

  /** The spaced format `A > B` gives the edge A -> B, as `A>B` does. */
  lemma {:induction false} SpacedLine(a: Term, b: Term)
    requires IsTerm(a) && IsTerm(b) && !(['#'] <= a)
    ensures ParseLine(a + " > " + b) == Edge(a, b)
  {
    var pieces := [a + " ", " " + b];
    var line := a + " > " + b;
    assert ParseLine(line) == FromSegments(NonBlank(pieces)) by {
      assert Join(pieces, '>') == line by {
        assert Join(pieces[1..], '>') == " " + b;
      }
      assert Trimmed(line) && line[0] != '#' by {
        assert line[0] == a[0] && line[|line| - 1] == b[|b| - 1];
        assert ['#'] != [a[0]];
      }
      ParsePieces(pieces);
    }
    assert NonBlank(pieces) == [a, b] by {
      StripSpaced(a);
      StripSpaced(b);
      NonBlankTwo(a + " ", " " + b);
    }
  }

  /** The three-level format `A > B > C` gives only its last edge B -> C. */
  lemma {:induction false} SpacedChain(a: Term, b: Term, c: Term)
    requires IsTerm(a) && IsTerm(b) && IsTerm(c) && !(['#'] <= a)
    ensures ParseLine(a + " > " + b + " > " + c) == Edge(b, c)
  {
    var pieces := [a + " ", " " + b + " ", " " + c];
    SpacedChainJoin(a, b, c);
    SpacedChainPieces(a, b, c);
    SpacedChainTrimmed(a, b, c);
    ParsePieces(pieces);
  }

  /** `A > B > C` is its three pieces joined by `>`. */
  lemma SpacedChainJoin(a: Term, b: Term, c: Term)
    ensures Join([a + " ", " " + b + " ", " " + c], '>') == a + " > " + b + " > " + c
  {
    var pieces := [a + " ", " " + b + " ", " " + c];
    assert Join(pieces[2..], '>') == " " + c;
    assert Join(pieces[1..], '>') == " " + b + " > " + c;
  }

  /** The pieces of `A > B > C` hold no `>` and give the segments A, B, C. */
  lemma SpacedChainPieces(a: Term, b: Term, c: Term)
    requires IsTerm(a) && IsTerm(b) && IsTerm(c)
    ensures NonBlank([a + " ", " " + b + " ", " " + c]) == [a, b, c]
    ensures forall k :: 0 <= k < 3 ==> '>' !in [a + " ", " " + b + " ", " " + c][k]
  {
    var pieces := [a + " ", " " + b + " ", " " + c];
    forall k | 0 <= k < 3 ensures '>' !in pieces[k] {
      assert '>' !in " ";
      assert '>' !in a + " " && '>' !in " " + b + " " && '>' !in " " + c;
    }
    StripSpaced(a);
    StripSpaced(b);
    StripSpaced(c);
    NonBlankThree(a + " ", " " + b + " ", " " + c);
  }

  /** `A > B > C` is trimmed and does not start with `#`. */
  lemma SpacedChainTrimmed(a: Term, b: Term, c: Term)
    requires IsTerm(a) && IsTerm(c) && !(['#'] <= a)
    ensures Trimmed(a + " > " + b + " > " + c) && (a + " > " + b + " > " + c)[0] != '#'
  {
    var line := a + " > " + b + " > " + c;
    assert line[0] == a[0] && line[|line| - 1] == c[|c| - 1];
    assert ['#'] != [a[0]];
  }

  /** A line of nothing but separators and whitespace adds nothing and does
      not fail. */
  lemma {:induction false} SeparatorsOnly(line: string)
    requires forall c :: c in line ==> c == '>' || IsSpace(c)
    ensures ParseLine(line) == Skipped
  {
    var s := Strip(line);
    SkippedLines(line);
    if s != [] {
      assert s[0] in s;
      SeparatorsAndSpace(s, '>');
    }
  }

  /** The lines `A > B` and `B > C`, once parsed, list B and C and record
      A -> [B] and B -> [C]. */
  lemma ChainLines(a: Term, b: Term, c: Term)
    requires a != b
    ensures TermsOf([Edge(a, b), Edge(b, c)]) == [b, c]
    ensures Build(EdgesOf([Edge(a, b), Edge(b, c)])) == Hierarchy([a, b], map[a := [b], b := [c]])
  {
    var ls := [Edge(a, b), Edge(b, c)];
    assert ls[..1] == [Edge(a, b)];
    assert ls[..1][..0] == [];
    ReadLine([], ls[0]);
    ReadLine(ls[..1], ls[1]);
    assert ls[..1] + [ls[1]] == ls;
  }

  /** Loading `A>B` then `A>B>C` lists B and C and records A -> [B] and
      B -> [C]: only the last two segments of a line are linked, so A and C
      never are. */
  lemma LoadChainExample(a: Term, b: Term, c: Term)
    requires IsTerm(a) && IsTerm(b) && IsTerm(c) && a != b && !(['#'] <= a)
    ensures Terms([Join([a, b], '>'), Join([a, b, c], '>')]) == [b, c]
    ensures HierarchyOf([Join([a, b], '>'), Join([a, b, c], '>')]) ==
      Hierarchy([a, b], map[a := [b], b := [c]])
  {
    ChainParses(a, b, c);
    ChainLines(a, b, c);
  }

  /** The two lines of the chain example parse to their edges. */
  lemma ChainParses(a: Term, b: Term, c: Term)
    requires IsTerm(a) && IsTerm(b) && IsTerm(c) && !(['#'] <= a)
    ensures ParseLines([Join([a, b], '>'), Join([a, b, c], '>')]) == [Edge(a, b), Edge(b, c)]
  {
    ParseTwoLines(Join([a, b], '>'), Join([a, b, c], '>'));
    ParseTwoTerms(a, b);
    ParseThreeTerms(a, b, c);
  }

  /** `A>B` parses to the edge A -> B. */
  lemma ParseTwoTerms(a: Term, b: Term)
    requires IsTerm(a) && IsTerm(b) && !(['#'] <= a)
    ensures ParseLine(Join([a, b], '>')) == Edge(a, b)
  {
    ParseJoined([a, b]);
  }

  /** `A>B>C` parses to the edge B -> C. */
  lemma ParseThreeTerms(a: Term, b: Term, c: Term)
    requires IsTerm(a) && IsTerm(b) && IsTerm(c) && !(['#'] <= a)
    ensures ParseLine(Join([a, b, c], '>')) == Edge(b, c)
  {
    ParseJoined([a, b, c]);
  }

  /** Two lines parse to their two meanings. */
  lemma ParseTwoLines(x: string, y: string)
    ensures ParseLines([x, y]) == [ParseLine(x), ParseLine(y)]
  {
    assert ParseLines([x, y])[0] == ParseLine(x);
  }
}
