# Thesaurus hierarchy: loader and reducer

This project models the two functions at the heart of `teste_txt.py`, a
Streamlit page that suggests thesaurus terms for a text:

- `carregar_dicionario_termos` reads a thesaurus file line by line. Blank lines
  and `#` comments are skipped. A data line such as `Saúde > Doença > Diabetes`
  contributes its last segment to a flat term list. When the line has two or
  more segments, it also adds one edge, from the second-to-last segment to
  that term, to a parent-to-children dict kept in insertion order. A file that
  cannot be opened or read yields an empty list, an empty dict and an error.
- `aplicar_logica_hierarquia` first inverts the dict into a child-to-parent map
  (a child listed under several parents keeps the last one visited). It then
  drops every suggested term that is the recorded parent of a suggested term,
  itself included: a term recorded as its own child (the line `A>A`) removes
  itself.

The project has three modules:

- `Text` (`text.dfy`) holds the string operations the loader uses: `str.strip()`, `str.split('>')`,
  `str.replace('\t', '')` and the segment comprehension of line 16.
- `HierarchyLoader` (`loader.dfy`) holds the loader. It is a method with a loop
  over the lines, proved against prefix-recursive specification functions:
  - `ParseLine` gives each line's meaning (`Skipped`, `Leaf(term)` or `Edge(parent, term)`), and every loader lemma is stated about it.
  - `Terms` and `HierarchyOf`, built from `TermsOf`, `EdgesOf` and `Build` over the parsed lines.
  - The dict is `Hierarchy(order, children)`: a map plus the insertion order of its keys.
- `HierarchyReducer` (`reducer.dfy`) holds the reducer. It is a method with the
  source's nested loops, proved against `Inverse` and `Reduced`. The lemmas
  characterise those two functions independently: by last listing, by
  idempotence, and by explicit examples.

The file and its failures are a `Source` value (`Missing`, `Unreadable(cause)`,
`Readable(lines)`), and the error the page shows is a `Status` result. The
reducer's result is a set because the source returns `list(set(...))`, whose
order is unspecified.

Two details of the code that the model keeps:
- The reducer removes only the direct recorded parent of a suggested term
  (one hop). It does not remove every ancestor.
- Tabs are removed only from the two segments the loader uses, after
  stripping.

## Model

| member | source | states |
|---|---|---|
| Text.Strip | teste_txt.py:13 | the stripped line is empty exactly when the line is all whitespace; otherwise it starts and ends with a non-whitespace character and holds only characters of the line |
| Text.StripTrims | teste_txt.py:13 | the stripped string is the slice of the input left after dropping a whitespace run at each end |
| Text.StripTrimmed | teste_txt.py:16 | stripping a string that already starts and ends with non-whitespace leaves it unchanged |
| Text.StripPadded | teste_txt.py:13-16 | stripping removes exactly the whitespace put before and after a string that starts and ends with non-whitespace |
| Text.StripSpaced | teste_txt.py:16 | one space before, after, or on both sides of such a string is stripped off again |
| Text.SplitPieces | teste_txt.py:16 | no piece of `line.split('>')` contains `>` |
| Text.JoinSplit | teste_txt.py:16 | joining the pieces of a split with the separator gives the line back |
| Text.SplitJoin | teste_txt.py:16 | splitting pieces joined by a separator they do not contain gives the pieces back |
| Text.RemoveTabs | teste_txt.py:21 | a tab-free string is unchanged by `replace('\t', '')`, and a first or last character that is not a tab stays first or last |
| Text.RemoveTabsChars | teste_txt.py:21 | a character survives tab removal exactly when it was in the input and is not a tab |
| Text.RemoveTabsAppend | teste_txt.py:21 | tab removal of a concatenation is the concatenation of the tab removals; with the one-character cases this makes the result exactly the non-tab characters, in order and with their multiplicity |
| Text.NonBlank | teste_txt.py:16 | the comprehension keeps at most as many segments as there are pieces, each non-empty with no whitespace at either end |
| Text.NonBlankAppend | teste_txt.py:16 | the segments of a concatenation of pieces are the segments of the first part followed by those of the second |
| Text.NonBlankOne | teste_txt.py:16 | one piece gives its strip as its only segment, or no segment when it is blank; with `NonBlankAppend`, the segments are the strips of the non-blank pieces, in order |
| Text.BlankPieceDropped | teste_txt.py:16 | a blank piece anywhere among the pieces contributes no segment and leaves the others in place |
| Text.NonBlankEmpty | teste_txt.py:16-17 | the comprehension yields no segment exactly when every piece is blank |
| Text.NonBlankTrimmed | teste_txt.py:16 | pieces that are already trimmed pass through the comprehension unchanged |
| Text.NonBlankKeepsOut | teste_txt.py:16 | a separator absent from every piece is absent from every segment |
| Text.Segments | teste_txt.py:16 | every segment of a line is non-empty, has no whitespace at either end, and is free of `>` |
| Text.SegmentsOfJoin | teste_txt.py:16 | the segments of pieces joined by `>` are exactly the stripped non-blank pieces, in order |
| Text.NoSegments | teste_txt.py:16-18 | a line has no segments exactly when every `>`-piece is blank |
| Text.JoinTrimmed | teste_txt.py:13-16 | joining trimmed segments with `>` gives a trimmed line that starts with the first segment |
| Text.JoinCovers | teste_txt.py:16 | every character of every piece occurs in the joined line |
| Text.SeparatorsAndSpace | teste_txt.py:16-18 | a line of nothing but `>` and whitespace splits into blank pieces only |
| HierarchyLoader.LoadDictionary | teste_txt.py:7-34 | a missing source gives an empty list and dict with `SourceNotFound`; an unreadable one gives them with `SourceReadError(cause)`; a readable one gives `Loaded` with exactly the term list and dict that reading its lines in order produces |
| HierarchyLoader.AddEdgeInPlace | teste_txt.py:25-27 | creating the key when absent and then appending gives the dict with the child added at the end of the parent's list and a new key last in the key order |
| HierarchyLoader.SkippedLines | teste_txt.py:13-18 | a line contributes nothing exactly when, stripped, it is empty, starts with `#`, or all its `>`-pieces are blank |
| HierarchyLoader.ParsedTerms | teste_txt.py:16-24 | every term and parent a line yields is non-empty, trimmed, and free of tabs and `>` |
| HierarchyLoader.EntryLinesAreEntries | teste_txt.py:12-18 | the line positions counted as entries are increasing and are exactly the lines not skipped |
| HierarchyLoader.TermsFollowLines | teste_txt.py:19-22 | the term list has one term per line not skipped, the k-th being the term of the k-th such line (order kept, duplicates kept) |
| HierarchyLoader.TermsAreTerms | teste_txt.py:19-22 | terms collected from usable lines are usable terms |
| HierarchyLoader.LoadedTerms | teste_txt.py:13-22 | every loaded term is non-empty, trimmed, and free of tabs and `>` |
| HierarchyLoader.SkippedOnly | teste_txt.py:14-18 | lines that are all skipped give an empty list and an empty dict |
| HierarchyLoader.CommentsOnly | teste_txt.py:13-15 | a source of blank lines and `#` comments loads an empty list and an empty dict |
| HierarchyLoader.EdgesFromLines | teste_txt.py:23-27 | every edge comes from a line with two or more segments, as its last two |
| HierarchyLoader.LinesGiveEdges | teste_txt.py:23-27 | every line with two or more segments contributes its edge |
| HierarchyLoader.EdgeChildrenAreTerms | teste_txt.py:19-27 | the child of every edge is on the term list, so there are no more edges than terms |
| HierarchyLoader.BuildKeys | teste_txt.py:25-26 | the dict lists each key once and its keys are exactly the parents of the edges |
| HierarchyLoader.NoChildren | teste_txt.py:25-27 | a term that is no edge's parent has no children |
| HierarchyLoader.BuildChildren | teste_txt.py:25-27 | each key maps to the non-empty list of its children in insertion order |
| HierarchyLoader.BuildOrder | teste_txt.py:25-26 | the keys are ordered by the first occurrence of each parent among the edges |
| HierarchyLoader.ChildrenAreEdges | teste_txt.py:27 | a child recorded for a parent is the child of one of that parent's edges |
| HierarchyLoader.LoadedHierarchy | teste_txt.py:12-27 | the loaded dict is well formed; every child list is non-empty; every child is a loaded term; there are no more edges than terms |
| HierarchyLoader.ParseJoined | teste_txt.py:13-24 | a line written as usable terms joined by `>` parses back to its last term, linked to the one before it when there is one |
| HierarchyLoader.ParsePieces | teste_txt.py:13-24 | a trimmed line not starting with `#` contributes what the stripped non-blank `>`-pieces give, whatever whitespace and empty pieces lie between them |
| HierarchyLoader.SpacedLine | teste_txt.py:13-27 | the spaced format `A > B` gives the edge A -> B, the same as `A>B` |
| HierarchyLoader.SpacedChain | teste_txt.py:13-27 | the three-level format `A > B > C` gives only its last edge, B -> C |
| HierarchyLoader.SeparatorsOnly | teste_txt.py:13-18 | a line of only `>` and whitespace contributes nothing |
| HierarchyLoader.LoadChainExample | teste_txt.py:12-27 | loading `A>B` then `A>B>C` gives terms `[B, C]` and the dict `A: [B], B: [C]`: A and C are never linked |
| HierarchyReducer.PointChildren | teste_txt.py:41-42 | the inner loop leaves the map with every child of the parent pointing to that parent and every other entry unchanged |
| HierarchyReducer.InvertHierarchy | teste_txt.py:39-42 | the nested loops build exactly the inverse obtained by visiting the keys in insertion order |
| HierarchyReducer.CollectRemovals | teste_txt.py:43-48 | the loop collects exactly the recorded parents of suggested terms that are themselves suggested |
| HierarchyReducer.ApplyHierarchy | teste_txt.py:37-50 | the result is the suggestion, as a set, without the recorded parents of suggested terms |
| HierarchyReducer.Reduced | teste_txt.py:38-49 | the result is a subset of the suggestion, and no surviving term's recorded parent survives |
| HierarchyReducer.InverseKeys | teste_txt.py:39-42 | a term has an inverse entry exactly when some key lists it as a child |
| HierarchyReducer.InverseLastWriteWins | teste_txt.py:39-42 | a term's inverse entry is the last key, in insertion order, that lists it |
| HierarchyReducer.RecordedParentIsInverse | teste_txt.py:39-46 | the inverse maps `c` to `p` exactly when `p` is the last key listing `c` |
| HierarchyReducer.ReducedKeeps | teste_txt.py:43-49 | a term survives exactly when it was suggested and is not the last-listing parent of any suggested term (checked against the original suggestion) |
| HierarchyReducer.ReduceIdempotent | teste_txt.py:37-50 | reducing a reduced suggestion changes nothing |
| HierarchyReducer.NothingToCollapse | teste_txt.py:43-49 | the suggestion comes back whole exactly when no suggested term has its recorded parent among the suggestion |
| HierarchyReducer.UnlistedTermKept | teste_txt.py:43-49 | a lone term listed under no key survives |
| HierarchyReducer.LoadedInverse | teste_txt.py:39-42 | every inverse entry of a loaded dict is a loaded term and points to a key that lists it |
| HierarchyReducer.InverseOfTwo | teste_txt.py:39-42 | for a two-key dict the later key's children override the earlier key's |
| HierarchyReducer.ChainExample | teste_txt.py:43-49 | with `A: [B], B: [C]`: `{A, B, C}` reduces to `{C}`; `{A, C}` stays whole (one hop only); `{B, C}` reduces to `{C}` |
| HierarchyReducer.SelfLoopExample | teste_txt.py:39-49 | with `A: [A]` (the line `A>A`), `{A}` reduces to the empty set: a term that is its own recorded parent removes itself |
| HierarchyReducer.CycleExample | teste_txt.py:39-49 | with `A: [B], B: [A]`, `{A, B}` reduces to the empty set |
| HierarchyReducer.LastWriteWinsExample | teste_txt.py:39-49 | with `P1: [C], P2: [C]`, `{P1, C}` stays whole and `{P2, C}` reduces to `{C}` |

## Left out

- Opening the file, decoding it as UTF-8 and splitting it into lines are not modelled: the lines arrive in a `Source` value.
  - A missing file is `Missing`.
  - A file that cannot be opened for another reason (a permission error, a directory), or that fails while being read or decoded, is `Unreadable(cause)`. The handler discards whatever was read and returns an empty list and dict, so failing before the first line models it exactly.
- The `st.error` messages are left out. The model returns only the `Status` value that tells the two failures apart.
- `@st.cache_data` memoisation is left out: the model reads the lines on every call, whereas the decorated function is keyed on the file name alone and returns its first result for that name even when the file is later edited, created or removed.
- `gerar_termos_llm_mock` and the Streamlit page around these functions (lines 52 onward) are not part of this model.
- Text.IsSpace: only six of the ASCII characters that `str.strip()` removes are modelled: space, tab, line feed, carriage return, form feed and vertical tab. Python also strips the ASCII separators U+001C–U+001F and other Unicode whitespace, such as U+0085, U+00A0 and U+2000–U+200A.
- HierarchyReducer.ApplyHierarchy: returns a set rather than a list, because the source's `list(set(...))` has no specified order.
- HierarchyLoader.LoadDictionary: keeps the `if termo_especifico:` test of line 20, but its false branch is unreachable. Every segment is non-empty after stripping, so no input takes it.
