# dotglob's globber, modelled in Dafny

dotglob selects files with `.glob` declaration files spread over a directory
tree. Each declaration file holds shell-style tokens, and each token is a glob
pattern. A token starting with `-` is subtractive. An empty body stands for
`**`, and a body starting with `.` stands for `**/*<body>`. Every token is
anchored under the directory of its declaration file. The resulting expressions
are ordered by depth, meaning their count of `/` in the whole anchored
expression. They are then applied in that order: an additive expression adds
its matches to the result and a subtractive one removes them. An expression
with more `/` is applied later, and expressions with equal counts keep their
discovery order. A deeper file's expression therefore overrides a shallower
file's expression when it has more `/`, or the same count and comes later in
discovery order. `NestedOverride` shows a deeper file overriding, and
`ShallowFileApplied` shows a shallower file's longer pattern applied last.

The model covers the whole expression pipeline of `src/dotglob/globber.py`. It
has three modules:

- `Text` (`text.dfy`) models the parts of Python's `str` that the pipeline
  uses:
  - `startswith` of one character;
  - `lstrip` and `strip` over a character set, where the whitespace that
    `strip()` removes is the `str.isspace` set;
  - `count` of one character.
- `DepthSort` (`depth_sort.dfy`) models the stable sort of `expressions`. The
  specification is a function, `SortedByDepth`. The method `SortInPlace` is an
  in-place insertion sort on an array, proved to compute that function. Lemmas
  prove that the result is a permutation, that it is sorted, and that it is
  stable. They also prove that any sorted, stable arrangement equals it, so the
  model does not depend on which stable algorithm Python's runtime uses.
- `Globber` (`globber.dfy`) models the rest of the pipeline:
  - `to_additive`, as the function `ToAdditive`;
  - `unabbreviated`, as the functions `Unabbreviated` and `Expand`;
  - the nested loops of `unordered_expressions`, as the method
    `UnorderedExpressions` over the function `Anchor`;
  - `expressions`, as the method `Expressions`;
  - the fold of `paths`, as the method `Paths` over the function `Resolve`.

Two standard-library calls enter as parameters:

- shell tokenisation (`shlex.split`) is `split: string -> seq<string>`;
- glob matching (`glob.glob`) is `glob: string -> set<string>`.

Discovering the declaration files, and reading them, is replaced by a given
sequence of `GlobFile(parent, content)` values in discovery order. `Path /` is
modelled as `parent + "/" + body`.

Stripping a token twice is not stripping it once. `to_additive` removes the
leading run of `-` and then the whitespace around the body. A leftover `-`
behind that whitespace stays in the body: `"- -x"` has body `"-x"`. The model
follows the code here:

- `ToAdditiveIdempotentIff` and `UnabbreviatedIdempotentIff` state exactly
  when reading a token back is stable;
- `ToAdditiveSecondDash` exhibits the case where it is not.

`paths` re-reads the sign of each anchored expression with `to_additive`. What
it reads back depends on how the directory text begins:

- `AnchorKeepsSign` proves that the token's own sign is read back when the
  directory does not begin with `-`.
- `AnchorReadBack` proves that the sign and the whole joined path are read back
  when the directory begins with neither `-` nor whitespace.
- `DashAnchorReadBack` shows an additive token under a relative directory
  `-data` read back as subtractive.
- `SpaceAnchorReadBack` shows a subtractive token under a directory ` d`. The
  token keeps its sign but loses the directory's leading whitespace, because
  `strip` applies to the body of a subtractive expression.

## Model

| member | source | states |
|---|---|---|
| Text.LStrip | src/dotglob/globber.py:22 | `lstrip("-")`: the result is no longer than the input and does not start with a stripped character |
| Text.RStrip | src/dotglob/globber.py:22 | right strip: no longer than the input, does not end with a stripped character, and keeps the first character |
| Text.Strip | src/dotglob/globber.py:22 | `strip()`: no longer than the input, and neither end is a stripped character |
| Text.StripIsInfix | src/dotglob/globber.py:22 | `strip` keeps a contiguous middle part of the input and removes only stripped characters on both sides of it |
| Text.StripPadded | src/dotglob/globber.py:22 | stripping whitespace padding around an already trimmed text gives back exactly that text |
| Text.StartsWith | src/dotglob/globber.py:21 | `startswith` of one character: the text is non-empty and its first character is that one (also used at lines 30 and 39) |
| Text.Count | src/dotglob/globber.py:61 | `count` of one character, defined by recursion over the text |
| Text.CountAppend | src/dotglob/globber.py:61 | the count of `/` in a concatenation is the sum of the counts of its parts |
| DepthSort.Depth | src/dotglob/globber.py:61 | the sort key `x.count("/")` |
| DepthSort.Insert | src/dotglob/globber.py:61 | one step of the stable sort: the new element goes after every element whose key does not exceed its own; its properties are `InsertPermutes`, `InsertStable` and `InsertSorted` |
| DepthSort.SortedByDepth | src/dotglob/globber.py:61 | the sorted list, by repeated insertion; its properties are `SortPermutes`, `SortIsSorted`, `SortIsStable` and `StableSortIsUnique` |
| DepthSort.InsertPermutes | src/dotglob/globber.py:61 | one insertion step adds its element and loses none |
| DepthSort.SortPermutes | src/dotglob/globber.py:61 | the sorted list is a permutation of the unsorted one |
| DepthSort.SortIsSorted | src/dotglob/globber.py:61 | the sorted list has non-decreasing count of `/` |
| DepthSort.InsertStable | src/dotglob/globber.py:61 | one insertion step keeps the order of equal-depth elements and puts the new one last among its depth |
| DepthSort.SortIsStable | src/dotglob/globber.py:61 | for every depth, the elements of that depth appear in the sorted list in their input order |
| DepthSort.StableSortIsUnique | src/dotglob/globber.py:61 | any arrangement that is sorted by depth and keeps every depth's input order is exactly `SortedByDepth`, so the stable `list.sort` has that result |
| DepthSort.SortSwapsPair | src/dotglob/globber.py:61 | two expressions out of depth order are swapped |
| DepthSort.SortKeepsPair | src/dotglob/globber.py:61 | two expressions already in depth order keep their order |
| DepthSort.InsertInPlace | src/dotglob/globber.py:61 | moving one element left past the deeper ones of a sorted prefix leaves the prefix extended by `Insert` and the rest of the array unchanged |
| DepthSort.SortInPlace | src/dotglob/globber.py:61 | `result.sort(key=lambda x: x.count("/"))` in place: the array afterwards holds `SortedByDepth` of its old contents |
| Globber.SignPrefix | src/dotglob/globber.py:28 | `sign = "" if additive else "-"` |
| Globber.ToAdditive | src/dotglob/globber.py:14-23 | a token is read as additive exactly when it does not start with `-`; an additive token is returned unchanged; a subtractive one loses at least its first character and comes back trimmed of whitespace |
| Globber.ToAdditiveNegated | src/dotglob/globber.py:21-22 | a run of one or more `-`, then whitespace, a trimmed body and whitespace, is read as exactly that body and subtractive |
| Globber.SignRoundTrip | src/dotglob/globber.py:21-23 | writing a sign before a body that does not start with `-` and, with the `-` sign, has no whitespace at either end, then reading it back, gives the same sign and body |
| Globber.ToAdditiveIdempotentIff | src/dotglob/globber.py:21-23 | the body read from a token reads back as itself and additive exactly when it does not start with `-` |
| Globber.ToAdditiveSecondDash | src/dotglob/globber.py:22 | `"- -x"` is read as body `"-x"`, and reading that body again strips a second `-` |
| Globber.ToAdditiveExamples | src/dotglob/globber.py:16-19 | the doctests: `blah.txt` is additive and unchanged; `-blah.txt` is subtractive with body `blah.txt` |
| Globber.Expand | src/dotglob/globber.py:29-31 | the expanded body is never empty and never starts with `.`; it starts with `-` exactly when the body does; it stays trimmed when the body is |
| Globber.ExpandCases | src/dotglob/globber.py:29-31 | the empty body becomes `**`, a body starting with `.` becomes `**/*` followed by the body, and any other body is unchanged |
| Globber.ExpandIdempotent | src/dotglob/globber.py:29-31 | expanding an expanded body changes nothing |
| Globber.Unabbreviated | src/dotglob/globber.py:26-32 | the output starts with `-` exactly when the input does |
| Globber.UnabbreviatedNegated | src/dotglob/globber.py:27-32 | a `-` before a trimmed body that does not start with `-` is kept, and the body is expanded |
| Globber.UnabbreviatedReadBack | src/dotglob/globber.py:26-32 | reading the output back gives the token's sign and its expanded body, when the token's body does not start with `-` |
| Globber.UnabbreviatedIdempotentIff | src/dotglob/globber.py:26-32 | unabbreviating twice equals unabbreviating once exactly when the token's body does not start with `-` |
| Globber.UnabbreviatedExamples | tests/test_dotglob.py:142-152 | `.py` becomes `**/*.py`, and `**/*.py` is unchanged |
| Globber.UnabbreviatedNegatedExtension | tests/test_dotglob.py:154-155 | `-.py` becomes `-**/*.py` |
| Globber.UnabbreviatedNegatedPlain | tests/test_dotglob.py:146-147 | `-**/*.py` is unchanged |
| Globber.UnabbreviatedDashAlone | tests/test_dotglob.py:158-159 | a lone `-` becomes `-**` |
| Globber.Join | src/dotglob/globber.py:40-42 | `globfile.parent / expression` as the directory, `/` and the body |
| Globber.Tokens | src/dotglob/globber.py:37 | `shlex.split(globfile.read_text() or "**")`, with the splitter as a parameter |
| Globber.Anchor | src/dotglob/globber.py:38-42 | one expression is the token's sign, then the directory, `/` and the expanded body |
| Globber.AnchoredTokens | src/dotglob/globber.py:37-42 | the tokens of one file give exactly as many expressions, in token order, each being the token's sign before the expanded body joined under the directory |
| Globber.Anchored | src/dotglob/globber.py:37-42 | the expressions of one declaration file, one per token in token order; its properties are `AnchoredTokens` and `AnchoredSnoc` |
| Globber.AnchoredSnoc | src/dotglob/globber.py:37-42 | anchoring one more token appends its expression |
| Globber.AllAnchored | src/dotglob/globber.py:36-42 | the expressions of all files, file after file in discovery order; `UnorderedExpressions` is proved to compute it |
| Globber.AnchorKeepsSign | src/dotglob/globber.py:39-42 | under a directory not starting with `-`, `to_additive` reads back the token's own sign from its expression |
| Globber.AnchorReadBack | src/dotglob/globber.py:39-42 | for a directory not starting with `-` or whitespace, `to_additive` reads back from an expression the token's sign and the joined, expanded body |
| Globber.DashAnchorReadBack | src/dotglob/globber.py:40-42 | under a directory `-data`, the additive token `*.py` gives `-data/*.py`, which is read back as subtractive |
| Globber.SpaceAnchorReadBack | src/dotglob/globber.py:40 | under a directory ` d`, the token `-x` gives `- d/x`, read back as subtractive with body `d/x` |
| Globber.AnchorDepth | src/dotglob/globber.py:40-42 | the depth of an expression is the depth of its directory plus one plus the depth of its expanded body |
| Globber.EmptyDeclaration | src/dotglob/globber.py:37 | an empty declaration file gives the single additive expression `<parent>/**` |
| Globber.UnorderedExpressions | src/dotglob/globber.py:35-42 | the nested loops give, file after file in discovery order, the anchored expressions of each file's tokens in token order |
| Globber.Expressions | src/dotglob/globber.py:60-62 | the result is the stable depth sort of all anchored expressions; with no declaration file it is empty |
| Globber.Apply | src/dotglob/globber.py:68-73 | one pass of the loop of `paths`: union for an additive expression, difference for a subtractive one; its effect is stated by `ResolveLast` |
| Globber.Resolve | src/dotglob/globber.py:65-74 | the fold's result contains only paths that some additive expression matched |
| Globber.Paths | src/dotglob/globber.py:65-74 | the loop computes the left fold `Resolve` from the empty set; with no expression the result is empty |
| Globber.ResolveLast | src/dotglob/globber.py:67-73 | after an additive expression all its matches are in the result; after a subtractive one none is; no other path changes |
| Globber.ResolveLastWins | src/dotglob/globber.py:67-73 | a path is in the result exactly when some additive expression matches it and no later subtractive expression does |
| Globber.NestedOverride | src/dotglob/globber.py:60-74 | whole pipeline on a small tree whose recursive glob also matches `/r/` and both declaration files: an empty root file and `-*.py` in `sub` select every entry except `sub/b.py`, although `sub`'s file is discovered first |
| Globber.ShallowFileApplied | src/dotglob/globber.py:60-74 | whole pipeline: a root file holding `sub/**/*.py` and `-*.py` in `sub` keep `sub/b.py`, because the root expression has more `/` and is applied after the deeper file's removal |

## Left out

- Discovery of the declaration files (`path.glob`) and `read_text` are file-system I/O. The files are a given sequence of `GlobFile(parent, content)` values in discovery order.
- `shlex.split` is the parameter `split`. The model covers only the `or "**"` default for empty text. Text holding only whitespace goes to `split` unchanged, as in the code.
- `split` is total, so the model has no error path for text that `shlex.split` rejects. Unbalanced quotes raise `ValueError` there, which aborts `expressions`.
- The matching rules of `glob.glob(..., recursive=True, include_hidden=True)` are the parameter `glob`. That includes how `**` treats directories and hidden entries.
- `Path /` is plain concatenation with `/`. The model leaves out an absolute body replacing the directory, the normalisation of `.` and of repeated separators, and Windows separators.
- `Join` keeps a trailing separator, but pathlib drops it. The token `build/` gives `<parent>/build` in the code and `<parent>/build/` in the model. That is one more `/` for the sort key, so the depth order against other files' expressions can differ.
- `Config` is left out. It only names the declaration file, and `absolute_path` is never read.
- `unordered_expressions` is a lazy generator. The model builds the whole sequence of expressions at once.
- `paths` is annotated `set[Path]`, but it collects the strings that `glob.glob` returns. The model uses a set of strings.
- Python's `list.sort` (Timsort) is replaced by insertion sort. `StableSortIsUnique` shows that both give the same result.
- `AnchorReadBack` requires a directory that does not begin with `-` or whitespace. `DashAnchorReadBack` shows only an additive token under a `-` directory. `SpaceAnchorReadBack` shows a subtractive token under a whitespace directory.
- `UnabbreviatedReadBack` and `SignRoundTrip` require a body that does not start with `-`. `ToAdditiveSecondDash` shows the other case.
- `SignRoundTrip` also requires that a body written with the `-` sign has no whitespace at either end. `to_additive` strips that whitespace, so `" x"` written as `"- x"` reads back as `"x"`.
- The pytest fixtures build real directory trees, so they are left out. `NestedOverride` states a smaller tree of the same kind with the oracles fixed by its requires clauses.
