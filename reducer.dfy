/** The hierarchy rule of `aplicar_logica_hierarquia`: when a suggested term and
    its recorded parent are both suggested, the parent is dropped as less
    specific. The recorded parent of a term is read from the inverse of the
    parent-to-children map, where a term listed under several parents keeps
    the one whose list was visited last. */
module HierarchyReducer {
  import opened HierarchyLoader

  /** Each of `kids` mapped to `parent`. */
  function Pointing(kids: seq<Term>, parent: Term): map<Term, Term>
  {
    map c | c in kids :: parent
  }

  /** The children listed under `p`, none if `p` is not a key. */
  function ChildrenOf(h: Hierarchy, p: Term): seq<Term>
  {
    if p in h.children then h.children[p] else []
  }

  /** The child-to-parent map after visiting the first `n` keys of the dict in
      insertion order and, for each, its children in order, each visit
      overwriting any earlier entry. */
  function InverseUpTo(h: Hierarchy, n: nat): map<Term, Term>
    requires n <= |h.order|
  {
    if n == 0 then map[]
    else
      var p := h.order[n - 1];
      InverseUpTo(h, n - 1) + Pointing(ChildrenOf(h, p), p)
  }

  /** `mapa_inverso_hierarquia` of a dict: all its keys visited. */
  function Inverse(h: Hierarchy): map<Term, Term>
  {
    InverseUpTo(h, |h.order|)
  }

  /** Among the first `n` keys in insertion order, the one at `i` is the last
      whose child list holds `c`. */
  predicate LastListing(h: Hierarchy, n: nat, c: Term, i: int)
    requires n <= |h.order|
  {
    && 0 <= i < n
    && c in ChildrenOf(h, h.order[i])
    && forall j :: i < j < n ==> c !in ChildrenOf(h, h.order[j])
  }

  /** `p` is the parent recorded for `c`: the last key of the dict, in
      insertion order, that lists `c` among its children. */
  predicate RecordedParent(h: Hierarchy, c: Term, p: Term)
  {
    exists i :: 0 <= i < |h.order| && LastListing(h, |h.order|, c, i) && h.order[i] == p
  }

  /** The terms of `candidates` that `inverse` records as the parent of some
      term of `terms`. */
  function ParentsAmong(terms: set<Term>, candidates: set<Term>, inverse: map<Term, Term>): (r: set<Term>)
    ensures r <= candidates
  {
    set t | t in terms && t in inverse && inverse[t] in candidates :: inverse[t]
  }

  /** The suggested terms that survive the hierarchy rule: a subset of the
      suggestion from which every term that is the recorded parent of a suggested
      term (itself included) is gone. */
  function Reduced(suggested: set<Term>, h: Hierarchy): (r: set<Term>)
    ensures r <= suggested
    ensures forall t :: t in r && t in Inverse(h) ==> Inverse(h)[t] !in r
  {
    suggested - ParentsAmong(suggested, suggested, Inverse(h))
  }

  /** Overwriting the entry of one more child extends the inverse by that child. */
  lemma {:induction false} InverseNextChild(before: map<Term, Term>, kids: seq<Term>, j: nat, parent: Term)
    requires j < |kids|
    ensures (before + Pointing(kids[..j], parent))[kids[j] := parent] ==
      before + Pointing(kids[..j + 1], parent)
  {
    assert kids[..j + 1] == kids[..j] + [kids[j]];
  }

  /** The elements of a sequence, as `set(...)` gives them. */
  function Elements(s: seq<Term>): set<Term>
  {
    set t | t in s
  }

  /** Looking at one more suggested term adds its recorded parent when that
      parent is a candidate. */
  lemma {:induction false} ParentsNextTerm(s: seq<Term>, k: nat, candidates: set<Term>, inverse: map<Term, Term>)
    requires k < |s|
    ensures ParentsAmong(Elements(s[..k + 1]), candidates, inverse) ==
      ParentsAmong(Elements(s[..k]), candidates, inverse) +
      (if s[k] in inverse && inverse[s[k]] in candidates then {inverse[s[k]]} else {})
  {
    assert s[..k + 1] == s[..k] + [s[k]];
    assert Elements(s[..k + 1]) == Elements(s[..k]) + {s[k]};
  }

  /** The inner loop of the first step: each child of `parent`, in order, gets
      `parent` as its entry, replacing whatever entry it had. */
  method PointChildren(inverse: map<Term, Term>, kids: seq<Term>, parent: Term)
    returns (updated: map<Term, Term>)
    ensures updated == inverse + Pointing(kids, parent)
  {
    updated := inverse;
    for j := 0 to |kids|
      invariant updated == inverse + Pointing(kids[..j], parent)
    {
      InverseNextChild(inverse, kids, j, parent);
      updated := updated[kids[j] := parent];
    }
    assert kids[..|kids|] == kids;
  }

  /** The first step of `aplicar_logica_hierarquia`: two nested loops over the
      dict in insertion order write each child's entry, so a later parent
      overwrites an earlier one. */
  method InvertHierarchy(h: Hierarchy) returns (inverse: map<Term, Term>)
    requires h.Valid()
    ensures inverse == Inverse(h)
  {
    inverse := map[];
    for i := 0 to |h.order|
      invariant inverse == InverseUpTo(h, i)
    {
      var parent := h.order[i];
      assert h.children[parent] == ChildrenOf(h, parent);
      inverse := PointChildren(inverse, h.children[parent], parent);
    }
  }

  /** The second step: for each suggested term in turn, its entry in the
      inverse is marked for removal when that entry is among `finals`. */
  method CollectRemovals(suggested: seq<Term>, finals: set<Term>, inverse: map<Term, Term>)
    returns (toRemove: set<Term>)
    ensures toRemove == ParentsAmong(Elements(suggested), finals, inverse)
  {
    toRemove := {};
    for k := 0 to |suggested|
      invariant toRemove == ParentsAmong(Elements(suggested[..k]), finals, inverse)
    {
      ParentsNextTerm(suggested, k, finals, inverse);
      var term := suggested[k];
      if term in inverse {
        var parent := inverse[term];
        if parent in finals {
          toRemove := toRemove + {parent};
        }
      }
    }
    assert suggested[..|suggested|] == suggested;
  }

  /** `aplicar_logica_hierarquia`: the suggestion, as a set, without the terms
      that are the recorded parent of a suggested term (the source returns
      the set as a list in unspecified order). */
  method ApplyHierarchy(suggested: seq<Term>, h: Hierarchy) returns (result: set<Term>)
    requires h.Valid()
    ensures result == Reduced(Elements(suggested), h)
  {
    var finals := Elements(suggested);
    var inverse := InvertHierarchy(h);
    var toRemove := CollectRemovals(suggested, finals, inverse);
    result := finals - toRemove;
  }

  // ---------------------------------------------------------------------------
  // The inverse map: last write wins

  /** A term has an entry in the inverse exactly when some key lists it
      (teste_txt.py:39-42). */
  lemma {:induction false} InverseKeys(h: Hierarchy, n: nat, c: Term)
    requires n <= |h.order|
    ensures c in InverseUpTo(h, n) <==> exists i :: 0 <= i < n && c in ChildrenOf(h, h.order[i])
  {
    if n > 0 {
      InverseKeys(h, n - 1, c);
    }
  }

  /** The entry of a term in the inverse is the last key, in insertion order,
      that lists it: a later listing overwrites an earlier one
      (teste_txt.py:39-42). */
  lemma {:induction false} InverseLastWriteWins(h: Hierarchy, n: nat, c: Term)
    requires n <= |h.order|
    requires c in InverseUpTo(h, n)
    ensures exists i :: 0 <= i < n && LastListing(h, n, c, i) && InverseUpTo(h, n)[c] == h.order[i]
  {
    var p := h.order[n - 1];
    var before, added := InverseUpTo(h, n - 1), Pointing(ChildrenOf(h, p), p);
    assert InverseUpTo(h, n) == before + added;
    if c in added {
      assert InverseUpTo(h, n)[c] == p;
      assert LastListing(h, n, c, n - 1);
    } else {
      assert c in before && InverseUpTo(h, n)[c] == before[c];
      InverseLastWriteWins(h, n - 1, c);
      var i :| 0 <= i < n - 1 && LastListing(h, n - 1, c, i) && before[c] == h.order[i];
      assert LastListing(h, n, c, i);
    }
  }

  /** `p` is the recorded parent of `c` exactly when the inverse maps `c` to `p`. */
  lemma {:induction false} RecordedParentIsInverse(h: Hierarchy, c: Term, p: Term)
    ensures RecordedParent(h, c, p) <==> c in Inverse(h) && Inverse(h)[c] == p
  {
    var n := |h.order|;
    InverseKeys(h, n, c);
    if c in Inverse(h) {
      InverseLastWriteWins(h, n, c);
      var i' :| 0 <= i' < n && LastListing(h, n, c, i') && Inverse(h)[c] == h.order[i'];
      if RecordedParent(h, c, p) {
        var i :| 0 <= i < n && LastListing(h, n, c, i) && h.order[i] == p;
        assert i == i';
      }
    }
  }

  // ---------------------------------------------------------------------------
  // The hierarchy rule

  /** A suggested term is dropped exactly when it is the recorded parent of a
      suggested term; the check is against the original suggestion, so in a
      chain every term with a suggested child goes (teste_txt.py:43-49). */
  lemma {:induction false} ReducedKeeps(suggested: set<Term>, h: Hierarchy, t: Term)
    ensures t in Reduced(suggested, h) <==>
      t in suggested && forall c :: c in suggested ==> !RecordedParent(h, c, t)
  {
    var inv := Inverse(h);
    if t in suggested && t !in Reduced(suggested, h) {
      var c :| c in suggested && c in inv && inv[c] in suggested && inv[c] == t;
      RecordedParentIsInverse(h, c, t);
    }
    if t in Reduced(suggested, h) {
      forall c | c in suggested ensures !RecordedParent(h, c, t) {
        RecordedParentIsInverse(h, c, t);
      }
    }
  }

  /** Applying the rule twice changes nothing more: no survivor's recorded
      parent survives. */
  lemma {:induction false} ReduceIdempotent(suggested: set<Term>, h: Hierarchy)
    ensures Reduced(Reduced(suggested, h), h) == Reduced(suggested, h)
  {
    var r := Reduced(suggested, h);
    assert ParentsAmong(r, r, Inverse(h)) == {};
  }

  /** The suggestion comes back whole exactly when no suggested term has its
      recorded parent among the suggestion. */
  lemma {:induction false} NothingToCollapse(suggested: set<Term>, h: Hierarchy)
    ensures Reduced(suggested, h) == suggested <==>
      forall c :: c in suggested && c in Inverse(h) ==> Inverse(h)[c] !in suggested
  {
    var inv := Inverse(h);
    if exists c :: c in suggested && c in inv && inv[c] in suggested {
      var c :| c in suggested && c in inv && inv[c] in suggested;
      assert inv[c] in ParentsAmong(suggested, suggested, inv);
    } else {
      assert ParentsAmong(suggested, suggested, inv) == {};
    }
  }

  /** The entries of the inverse of a loaded map are loaded terms, and each
      points back to a key of the map that lists it. */
  lemma {:induction false} LoadedInverse(lines: seq<string>)
    ensures HierarchyOf(lines).Valid()
    ensures forall c :: c in Inverse(HierarchyOf(lines)) ==>
      c in Terms(lines) && Inverse(HierarchyOf(lines))[c] in HierarchyOf(lines).children &&
      c in HierarchyOf(lines).children[Inverse(HierarchyOf(lines))[c]]
  {
    var h := HierarchyOf(lines);
    LoadedHierarchy(lines);
    forall c | c in Inverse(h)
      ensures c in Terms(lines) && Inverse(h)[c] in h.children && c in h.children[Inverse(h)[c]]
    {
      InverseKeys(h, |h.order|, c);
      InverseLastWriteWins(h, |h.order|, c);
    }
  }

  /** A term listed under no key survives on its own. */
  lemma {:induction false} UnlistedTermKept(t: Term, h: Hierarchy)
    requires forall i :: 0 <= i < |h.order| ==> t !in ChildrenOf(h, h.order[i])
    ensures Reduced({t}, h) == {t}
  {
    InverseKeys(h, |h.order|, t);
    assert ParentsAmong({t}, {t}, Inverse(h)) == {};
  }

  // ---------------------------------------------------------------------------
  // Examples

  /** The inverse of a dict with two keys: the later key's children override. */
  lemma InverseOfTwo(p: Term, q: Term, xs: seq<Term>, ys: seq<Term>)
    requires p != q
    ensures Inverse(Hierarchy([p, q], map[p := xs, q := ys])) == Pointing(xs, p) + Pointing(ys, q)
  {
    var h := Hierarchy([p, q], map[p := xs, q := ys]);
    assert InverseUpTo(h, 1) == map[] + Pointing(xs, p);
    assert map[] + Pointing(xs, p) == Pointing(xs, p);
  }

  /** With `A > B` and `B > C` loaded, suggesting A, B and C keeps only C: both
      A and B have a suggested child. Suggesting A and C keeps both: the rule
      looks one level up only. */
  lemma ChainExample(a: Term, b: Term, c: Term)
    requires a != b && b != c && a != c
    ensures Reduced({a, b, c}, Hierarchy([a, b], map[a := [b], b := [c]])) == {c}
    ensures Reduced({a, c}, Hierarchy([a, b], map[a := [b], b := [c]])) == {a, c}
    ensures Reduced({b, c}, Hierarchy([a, b], map[a := [b], b := [c]])) == {c}
  {
    InverseOfTwo(a, b, [b], [c]);
    var inv := Pointing([b], a) + Pointing([c], b);
    assert inv[b] == a && inv[c] == b && a !in inv;
    assert ParentsAmong({a, b, c}, {a, b, c}, inv) == {a, b};
    assert ParentsAmong({a, c}, {a, c}, inv) == {};
    assert ParentsAmong({b, c}, {b, c}, inv) == {b};
  }

  /** Two terms that are each other's child cancel out. */
  lemma CycleExample(a: Term, b: Term)
    requires a != b
    ensures Reduced({a, b}, Hierarchy([a, b], map[a := [b], b := [a]])) == {}
  {
    InverseOfTwo(a, b, [b], [a]);
    var inv := Pointing([b], a) + Pointing([a], b);
    assert inv[b] == a && inv[a] == b;
    assert ParentsAmong({a, b}, {a, b}, inv) == {a, b};
  }

  /** A term listed as its own child, as the line `A>A` records it, is its
      own recorded parent and so removes itself from any suggestion. */
  lemma SelfLoopExample(a: Term)
    ensures Reduced({a}, Hierarchy([a], map[a := [a]])) == {}
  {
    var h := Hierarchy([a], map[a := [a]]);
    assert InverseUpTo(h, 0) == map[];
    assert Inverse(h) == map[] + Pointing([a], a);
    assert Inverse(h)[a] == a;
    assert ParentsAmong({a}, {a}, Inverse(h)) == {a};
  }

  /** A child listed under two parents keeps only the later one: suggesting it
      with the earlier parent drops nothing, with the later parent drops that
      parent. */
  lemma LastWriteWinsExample(p1: Term, p2: Term, c: Term)
    requires p1 != p2 && p1 != c && p2 != c
    ensures Reduced({p1, c}, Hierarchy([p1, p2], map[p1 := [c], p2 := [c]])) == {p1, c}
    ensures Reduced({p2, c}, Hierarchy([p1, p2], map[p1 := [c], p2 := [c]])) == {c}
  {
    InverseOfTwo(p1, p2, [c], [c]);
    var inv := Pointing([c], p1) + Pointing([c], p2);
    assert inv[c] == p2 && p1 !in inv && p2 !in inv;
    assert ParentsAmong({p1, c}, {p1, c}, inv) == {};
    assert ParentsAmong({p2, c}, {p2, c}, inv) == {p2};
  }
}
