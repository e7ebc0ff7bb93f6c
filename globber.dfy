/** The expression pipeline of dotglob's globber: every token of every `.glob`
    declaration file becomes one signed glob expression anchored under the file's
    directory; the expressions are ordered by depth and then folded, in order,
    into a set of paths. Shell-style tokenisation (`shlex.split`) and glob
    matching (`glob.glob`) are outside the model and enter as parameters. */
module Globber {
  import opened Text
  import DepthSort

  /** A glob text and its sign, as `to_additive` returns them. */
  datatype Signed = Signed(body: string, additive: bool)

  /** A declaration file as discovery hands it over: its directory and its text. */
  datatype GlobFile = GlobFile(parent: string, content: string)

  /** The sign written in front of a subtractive expression. */
  function SignPrefix(additive: bool): string {
    if additive then "" else "-"
  }

  // ---------------------------------------------------------------------------
  // Sign handling: to_additive
  // ---------------------------------------------------------------------------

  /** `to_additive`: a token is subtractive exactly when it starts with `-`; then
      its whole leading run of `-` goes, and so does whitespace at either end. */
  function ToAdditive(expression: string): (r: Signed)
    ensures r.additive <==> !StartsWith(expression, '-')
    ensures r.additive ==> r.body == expression
    ensures !r.additive ==> |r.body| < |expression| && Trimmed(r.body, Whitespace)
  {
    if StartsWith(expression, '-') then
      Signed(Strip(LStrip(expression, {'-'}), Whitespace), false)
    else
      Signed(expression, true)
  }

  /** What the subtractive branch keeps: after any run of `-` and any whitespace
      padding, exactly the trimmed text in the middle. */
  lemma ToAdditiveNegated(n: nat, lead: string, t: string, trail: string)
    requires n >= 1 && AllIn(lead, Whitespace) && AllIn(trail, Whitespace)
    requires Trimmed(t, Whitespace)
    requires lead == [] ==> !StartsWith(t, '-')
    ensures ToAdditive(Repeat('-', n) + lead + t + trail) == Signed(t, false)
  {
    var rest := lead + t + trail;
    assert Repeat('-', n) + lead + t + trail == Repeat('-', n) + rest;
    LStripSkips(Repeat('-', n), rest, {'-'});
    assert '-' !in Whitespace;
    if lead == [] && t == [] {
      assert rest == trail;
    }
    assert LStrip(rest, {'-'}) == rest;
    StripPadded(lead, t, trail, Whitespace);
  }

  /** Writing a sign in front of a body and reading it back with `to_additive`
      gives the sign and the body again, for the bodies that `to_additive`
      produces and that do not themselves start with `-`. */
  lemma SignRoundTrip(body: string, additive: bool)
    requires !StartsWith(body, '-')
    requires !additive ==> Trimmed(body, Whitespace)
    ensures ToAdditive(SignPrefix(additive) + body) == Signed(body, additive)
  {
    if additive {
      assert SignPrefix(additive) + body == body;
    } else {
      ToAdditiveNegated(1, [], body, []);
      assert Repeat('-', 1) + [] + body + [] == SignPrefix(additive) + body;
    }
  }

  /** Reading back the body of a token gives that body again exactly when the body
      does not itself start with `-`. */
  lemma ToAdditiveIdempotentIff(expression: string)
    ensures var b := ToAdditive(expression).body;
            ToAdditive(b) == Signed(b, true) <==> !StartsWith(b, '-')
  {
  }

  /** A token whose `-` run is followed by whitespace and another `-` keeps that
      second `-`, so stripping twice is not stripping once there. */
  lemma ToAdditiveSecondDash()
    ensures ToAdditive("- -x") == Signed("-x", false)
    ensures ToAdditive(ToAdditive("- -x").body) == Signed("x", false)
  {
    ToAdditiveNegated(1, " ", "-x", "");
    assert Repeat('-', 1) + " " + "-x" + "" == "- -x";
    ToAdditiveNegated(1, "", "x", "");
    assert Repeat('-', 1) + "" + "x" + "" == "-x";
  }

  /** The two doctests of `to_additive`. */
  lemma ToAdditiveExamples()
    ensures ToAdditive("blah.txt") == Signed("blah.txt", true)
    ensures ToAdditive("-blah.txt") == Signed("blah.txt", false)
  {
    SignRoundTrip("blah.txt", false);
    assert SignPrefix(false) + "blah.txt" == "-blah.txt";
  }

  // ---------------------------------------------------------------------------
  // Abbreviation expansion: unabbreviated
  // ---------------------------------------------------------------------------

  /** The abbreviations of `unabbreviated`, on an unsigned body: the empty body
      means `**`, and a body starting with `.` is an extension under any directory. */
  function Expand(body: string): (r: string)
    ensures r != [] && !StartsWith(r, '.')
    ensures StartsWith(r, '-') <==> StartsWith(body, '-')
    ensures Trimmed(body, Whitespace) ==> Trimmed(r, Whitespace)
  {
    var b := if body == [] then "**" else body;
    if StartsWith(b, '.') then "**/*" + b else b
  }

  /** The three cases of the expansion, as the unit tests state them. */
  lemma ExpandCases(body: string)
    ensures body == [] ==> Expand(body) == "**"
    ensures StartsWith(body, '.') ==> Expand(body) == "**/*" + body
    ensures body != [] && !StartsWith(body, '.') ==> Expand(body) == body
  {
  }

  /** Expanding an expanded body changes nothing. */
  lemma ExpandIdempotent(body: string)
    ensures Expand(Expand(body)) == Expand(body)
  {
  }

  /** `unabbreviated`: split off the sign, expand the body, put the sign back. */
  function Unabbreviated(expression: string): (r: string)
    ensures StartsWith(r, '-') <==> StartsWith(expression, '-')
  {
    var s := ToAdditive(expression);
    SignPrefix(s.additive) + Expand(s.body)
  }

  /** The sign and the expanded body can be read back from the output of
      `unabbreviated`, which is what the anchoring loop relies on. */
  lemma UnabbreviatedReadBack(expression: string)
    requires !StartsWith(ToAdditive(expression).body, '-')
    ensures var s := ToAdditive(expression);
            ToAdditive(Unabbreviated(expression)) == Signed(Expand(s.body), s.additive)
  {
    var s := ToAdditive(expression);
    SignRoundTrip(Expand(s.body), s.additive);
  }

  /** Unabbreviating twice is unabbreviating once, exactly for the tokens whose
      body does not start with `-`. */
  lemma UnabbreviatedIdempotentIff(expression: string)
    ensures Unabbreviated(Unabbreviated(expression)) == Unabbreviated(expression)
            <==> !StartsWith(ToAdditive(expression).body, '-')
  {
    var s := ToAdditive(expression);
    var r := Unabbreviated(expression);
    if !StartsWith(s.body, '-') {
      UnabbreviatedReadBack(expression);
      ExpandIdempotent(s.body);
    } else {
      // The body is kept as it is, so `r` is `-` followed by the body, and
      // reading `r` back strips the body's own leading `-` as well.
      assert !s.additive && Expand(s.body) == s.body && r == "-" + s.body;
      LStripSkips("-", s.body, {'-'});
      var s2 := ToAdditive(r);
      assert s2.body == ToAdditive(s.body).body;
      assert Unabbreviated(r) == "-" + Expand(s2.body);
      assert Expand(s2.body) != s.body by {
        if StartsWith(s2.body, '-') {
          assert Expand(s2.body) == s2.body;
        }
      }
      assert ("-" + Expand(s2.body))[1..] == Expand(s2.body);
    }
  }

  /** The unit tests of `unabbreviated` on additive tokens. */
  lemma UnabbreviatedExamples()
    ensures Unabbreviated(".py") == "**/*.py"
    ensures Unabbreviated("**/*.py") == "**/*.py"
  {
  }

  /** A subtractive token keeps its sign and has its body expanded. */
  lemma UnabbreviatedNegated(body: string)
    requires !StartsWith(body, '-') && Trimmed(body, Whitespace)
    ensures Unabbreviated("-" + body) == "-" + Expand(body)
  {
    SignRoundTrip(body, false);
    assert SignPrefix(false) + body == "-" + body;
  }

  /** A subtractive extension is expanded behind its sign. */
  lemma UnabbreviatedNegatedExtension()
    ensures Unabbreviated("-.py") == "-**/*.py"
  {
  }

  /** A subtractive glob without abbreviation is left as it is. */
  lemma UnabbreviatedNegatedPlain()
    ensures Unabbreviated("-**/*.py") == "-**/*.py"
  {
  }

  /** A lone `-` removes everything under its directory. */
  lemma UnabbreviatedDashAlone()
    ensures Unabbreviated("-") == "-**"
  {
    UnabbreviatedNegated("");
    assert "-" + "" == "-";
  }

  // ---------------------------------------------------------------------------
  // Anchoring: the loops of unordered_expressions
  // ---------------------------------------------------------------------------

  /** `parent / body` for a relative body. */
  function Join(parent: string, body: string): string {
    parent + "/" + body
  }

  /** The tokens of a declaration file: its text split shell-style, an empty
      text counting as `**`. */
  function Tokens(content: string, split: string -> seq<string>): seq<string> {
    split(if content == [] then "**" else content)
  }

  /** One expression of `unordered_expressions`: the unabbreviated token joined
      under the file's directory, with its `-` moved in front of the joined path. */
  function Anchor(parent: string, token: string): (r: string)
    ensures var t := ToAdditive(token);
            r == SignPrefix(t.additive) + Join(parent, Expand(t.body))
  {
    var expression := Unabbreviated(token);
    if StartsWith(expression, '-') then "-" + Join(parent, expression[1..])
    else Join(parent, expression)
  }

  /** The expressions of one declaration file: one per token, in token order. */
  function Anchored(parent: string, tokens: seq<string>): seq<string> {
    seq(|tokens|, i requires 0 <= i < |tokens| => Anchor(parent, tokens[i]))
  }

  /** N tokens give N expressions, in token order; each is the sign of its token
      in front of the expanded body joined under the directory. */
  lemma AnchoredTokens(parent: string, tokens: seq<string>)
    ensures var r := Anchored(parent, tokens);
            && |r| == |tokens|
            && forall i :: 0 <= i < |tokens| ==>
                 var t := ToAdditive(tokens[i]);
                 r[i] == SignPrefix(t.additive) + Join(parent, Expand(t.body))
  {
  }

  /** Anchoring one more token appends its expression. */
  lemma AnchoredSnoc(parent: string, tokens: seq<string>, j: nat)
    requires j < |tokens|
    ensures Anchored(parent, tokens[..j + 1]) == Anchored(parent, tokens[..j]) + [Anchor(parent, tokens[j])]
  {
  }

  /** The expressions of all declaration files, file after file in discovery order. */
  function AllAnchored(files: seq<GlobFile>, split: string -> seq<string>): seq<string> {
    if files == [] then []
    else
      var f := files[|files| - 1];
      AllAnchored(files[..|files| - 1], split) + Anchored(f.parent, Tokens(f.content, split))
  }

  /** A directory whose text `to_additive` reads back unchanged once a glob is
      joined under it: it does not begin with `-` or with whitespace (absolute
      paths begin with `/`). */
  predicate AnchorSafe(parent: string) {
    parent == [] || (parent[0] != '-' && parent[0] !in Whitespace)
  }

  /** What `paths` reads back from an anchored expression is the sign of the token
      and its expanded body joined under the directory. */
  lemma AnchorReadBack(parent: string, token: string)
    requires AnchorSafe(parent)
    ensures var t := ToAdditive(token);
            ToAdditive(Anchor(parent, token)) == Signed(Join(parent, Expand(t.body)), t.additive)
  {
    var t := ToAdditive(token);
    var e := Expand(t.body);
    var j := Join(parent, e);
    assert '/' !in Whitespace && '-' != '/';
    assert j[0] == if parent == [] then '/' else parent[0];
    assert j[|j| - 1] == e[|e| - 1];
    SignRoundTrip(j, t.additive);
  }

  /** The sign `paths` reads from an anchored expression is the token's own
      sign whenever the directory does not begin with `-`. */
  lemma AnchorKeepsSign(parent: string, token: string)
    requires parent == [] || parent[0] != '-'
    ensures ToAdditive(Anchor(parent, token)).additive == ToAdditive(token).additive
  {
    var t := ToAdditive(token);
    var j := Join(parent, Expand(t.body));
    assert j[0] == if parent == [] then '/' else parent[0];
    assert Anchor(parent, token) == SignPrefix(t.additive) + j;
    if t.additive {
      assert Anchor(parent, token) == j;
    }
  }

  /** Under a directory that begins with whitespace, a subtractive token keeps
      its sign but `strip` removes that whitespace from the path read back. */
  lemma SpaceAnchorReadBack()
    ensures Anchor(" d", "-x") == "- d/x"
    ensures ToAdditive(Anchor(" d", "-x")) == Signed("d/x", false)
  {
    ToAdditiveNegated(1, "", "x", "");
    assert Repeat('-', 1) + "" + "x" + "" == "-x";
    assert Expand("x") == "x";
    assert "-" + Join(" d", "x") == "- d/x";
    ToAdditiveNegated(1, " ", "d/x", "");
    assert Repeat('-', 1) + " " + "d/x" + "" == "- d/x";
  }

  /** A directory whose relative name begins with `-` turns an additive token
      into an expression that `paths` reads as subtractive. */
  lemma DashAnchorReadBack()
    ensures Anchor("-data", "*.py") == "-data/*.py"
    ensures ToAdditive(Anchor("-data", "*.py")) == Signed("data/*.py", false)
  {
    DashAnchor();
    DashRead();
  }

  /** The expression of the additive token `*.py` under `-data`. */
  lemma DashAnchor()
    ensures Anchor("-data", "*.py") == "-data/*.py"
  {
    assert ToAdditive("*.py") == Signed("*.py", true);
  }

  /** The expression under `-data` is read as subtractive. */
  lemma DashRead()
    ensures ToAdditive("-data/*.py") == Signed("data/*.py", false)
  {
    ToAdditiveNegated(1, "", "data/*.py", "");
    assert Repeat('-', 1) + "" + "data/*.py" + "" == "-data/*.py";
  }

  /** The depth of an expression is the depth of its directory plus one for the
      joining `/` plus the depth of the expanded body. */
  lemma AnchorDepth(parent: string, token: string)
    ensures DepthSort.Depth(Anchor(parent, token))
            == Count(parent, '/') + 1 + Count(Expand(ToAdditive(token).body), '/')
  {
    var t := ToAdditive(token);
    JoinDepth(SignPrefix(t.additive), parent, Expand(t.body));
  }

  /** A sign in front of a joined path adds no `/`. */
  lemma JoinDepth(sign: string, parent: string, body: string)
    requires sign == "" || sign == "-"
    ensures Count(sign + Join(parent, body), '/') == Count(parent, '/') + 1 + Count(body, '/')
  {
    assert sign + Join(parent, body) == sign + (parent + ("/" + body));
    CountAppend(sign, parent + ("/" + body), '/');
    CountAppend(parent, "/" + body, '/');
    CountAppend("/", body, '/');
  }

  /** An empty declaration file stands for the single token `**`: one additive
      expression covering everything under its directory. */
  lemma EmptyDeclaration(parent: string, split: string -> seq<string>)
    requires split("**") == ["**"]
    ensures AllAnchored([GlobFile(parent, "")], split) == [parent + "/**"]
  {
    assert [GlobFile(parent, "")][..0] == [];
    assert Unabbreviated("**") == "**";
    assert Anchor(parent, "**") == parent + "/**";
  }

  /** `unordered_expressions`, as its nested loops run: for each declaration file,
      for each token, emit the anchored expression. */
  method UnorderedExpressions(files: seq<GlobFile>, split: string -> seq<string>)
    returns (result: seq<string>)
    ensures result == AllAnchored(files, split)
  {
    result := [];
    for i := 0 to |files|
      invariant result == AllAnchored(files[..i], split)
    {
      var globfile := files[i];
      var tokens := Tokens(globfile.content, split);
      ghost var before := result;
      for j := 0 to |tokens|
        invariant result == before + Anchored(globfile.parent, tokens[..j])
      {
        result := result + [Anchor(globfile.parent, tokens[j])];
        AnchoredSnoc(globfile.parent, tokens, j);
      }
      assert tokens[..|tokens|] == tokens;
      assert files[..i + 1][..i] == files[..i];
    }
    assert files[..|files|] == files;
  }

  // ---------------------------------------------------------------------------
  // Depth ordering: expressions
  // ---------------------------------------------------------------------------

  /** `expressions`: all anchored expressions, stably sorted by their count of `/`.
      With no declaration file there is no expression. */
  method Expressions(files: seq<GlobFile>, split: string -> seq<string>)
    returns (result: seq<string>)
    ensures result == DepthSort.SortedByDepth(AllAnchored(files, split))
    ensures files == [] ==> result == []
  {
    var unordered := UnorderedExpressions(files, split);
    var a := new string[|unordered|](i requires 0 <= i < |unordered| => unordered[i]);
    assert a[..] == unordered;
    DepthSort.SortInPlace(a);
    result := a[..];
  }

  // ---------------------------------------------------------------------------
  // Resolution: paths
  // ---------------------------------------------------------------------------

  /** Expression `e` adds path `p`: it is additive and its glob matches `p`. */
  predicate Adds(e: string, glob: string -> set<string>, p: string) {
    var s := ToAdditive(e);
    s.additive && p in glob(s.body)
  }

  /** Expression `e` removes path `p`: it is subtractive and its glob matches `p`. */
  predicate Removes(e: string, glob: string -> set<string>, p: string) {
    var s := ToAdditive(e);
    !s.additive && p in glob(s.body)
  }

  /** One iteration of the loop of `paths`. */
  function Apply(result: set<string>, e: string, glob: string -> set<string>): set<string> {
    var s := ToAdditive(e);
    if s.additive then result + glob(s.body) else result - glob(s.body)
  }

  /** Every path some additive expression of `exprs` matches. */
  function Added(exprs: seq<string>, glob: string -> set<string>): set<string> {
    if exprs == [] then {}
    else
      var s := ToAdditive(exprs[|exprs| - 1]);
      Added(exprs[..|exprs| - 1], glob) + (if s.additive then glob(s.body) else {})
  }

  /** The set `paths` computes: a left fold of `Apply` over `exprs`, from the empty
      set. Nothing is in it that no additive expression matched. */
  function Resolve(exprs: seq<string>, glob: string -> set<string>): (r: set<string>)
    ensures r <= Added(exprs, glob)
  {
    if exprs == [] then {}
    else Apply(Resolve(exprs[..|exprs| - 1], glob), exprs[|exprs| - 1], glob)
  }

  /** `paths`: start from the empty set; union in what additive expressions match
      and take out what subtractive ones match, in order. */
  method Paths(expressions: seq<string>, glob: string -> set<string>)
    returns (result: set<string>)
    ensures result == Resolve(expressions, glob)
    ensures expressions == [] ==> result == {}
  {
    result := {};
    for i := 0 to |expressions|
      invariant result == Resolve(expressions[..i], glob)
    {
      var s := ToAdditive(expressions[i]);
      var globResults := glob(s.body);
      if s.additive {
        result := result + globResults;
      } else {
        result := result - globResults;
      }
      assert expressions[..i + 1][..i] == expressions[..i];
    }
    assert expressions[..|expressions|] == expressions;
  }

  /** After an additive expression all its matches are in, after a subtractive one
      none of them is, and no other path changes. */
  lemma ResolveLast(exprs: seq<string>, e: string, glob: string -> set<string>)
    ensures var s := ToAdditive(e);
            var r := Resolve(exprs + [e], glob);
            && (s.additive ==> glob(s.body) <= r)
            && (!s.additive ==> r !! glob(s.body))
            && r - glob(s.body) == Resolve(exprs, glob) - glob(s.body)
  {
    assert (exprs + [e])[..|exprs|] == exprs;
  }

  /** Path `p` is added by the expression at `i` and no later expression removes it. */
  predicate Survives(exprs: seq<string>, glob: string -> set<string>, p: string, i: int) {
    && 0 <= i < |exprs|
    && Adds(exprs[i], glob, p)
    && forall j :: i < j < |exprs| ==> !Removes(exprs[j], glob, p)
  }

  /** How survival changes when one expression `e` is appended: the new
      expression survives exactly when it adds `p`, and an earlier one still
      survives exactly when `e` does not remove `p`. */
  lemma SurvivesAppend(exprs: seq<string>, e: string, glob: string -> set<string>, p: string, i: int)
    ensures Survives(exprs + [e], glob, p, |exprs|) <==> Adds(e, glob, p)
    ensures 0 <= i < |exprs| ==>
              (Survives(exprs + [e], glob, p, i) <==> Survives(exprs, glob, p, i) && !Removes(e, glob, p))
  {
    var s := exprs + [e];
    assert s[|exprs|] == e;
    if 0 <= i < |exprs| {
      assert s[i] == exprs[i];
      if Survives(exprs, glob, p, i) && !Removes(e, glob, p) {
        forall j | i < j < |s|
          ensures !Removes(s[j], glob, p)
        {
          if j < |exprs| {
            assert s[j] == exprs[j];
          }
        }
      }
      if Survives(s, glob, p, i) {
        assert !Removes(s[|exprs|], glob, p);
        forall j | i < j < |exprs|
          ensures !Removes(exprs[j], glob, p)
        {
          assert s[j] == exprs[j];
        }
      }
    }
  }

  /** One step of `ResolveLastWins`: appending `e` keeps the characterisation. */
  lemma ResolveAppend(exprs: seq<string>, e: string, glob: string -> set<string>, p: string)
    requires p in Resolve(exprs, glob) <==> exists i :: Survives(exprs, glob, p, i)
    ensures p in Resolve(exprs + [e], glob) <==> exists i :: Survives(exprs + [e], glob, p, i)
  {
    var s := exprs + [e];
    assert s[..|exprs|] == exprs && s[|exprs|] == e;
    SurvivesAppend(exprs, e, glob, p, 0);
    if Adds(e, glob, p) {
      assert Survives(s, glob, p, |exprs|);
    } else if Removes(e, glob, p) {
      forall i | 0 <= i < |s|
        ensures !Survives(s, glob, p, i)
      {
        SurvivesAppend(exprs, e, glob, p, i);
      }
    } else {
      if p in Resolve(exprs, glob) {
        var i :| Survives(exprs, glob, p, i);
        SurvivesAppend(exprs, e, glob, p, i);
      }
      if i :| Survives(s, glob, p, i) {
        SurvivesAppend(exprs, e, glob, p, i);
      }
    }
  }

  /** The later expression wins: a path is in the result exactly when some additive
      expression matches it and no subtractive expression after that one does. */
  lemma {:induction false} ResolveLastWins(exprs: seq<string>, glob: string -> set<string>, p: string)
    ensures p in Resolve(exprs, glob) <==> exists i :: Survives(exprs, glob, p, i)
    decreases |exprs|
  {
    if exprs != [] {
      var n := |exprs| - 1;
      ResolveLastWins(exprs[..n], glob, p);
      ResolveAppend(exprs[..n], exprs[n], glob, p);
      assert exprs[..n] + [exprs[n]] == exprs;
    }
  }

  // ---------------------------------------------------------------------------
  // The whole pipeline on a small tree
  // ---------------------------------------------------------------------------

  /** Directory `/r` holds `a.py`, `a.txt`, an empty declaration file `.glob`
      and a directory `sub` with `b.py` and a declaration file holding `-*.py`.
      A recursive glob with hidden entries matches `/r/` itself and every entry
      below it. Discovery finds `sub`'s file first, yet the shallower `**` is
      applied first and the deeper `-*.py` removes `sub/b.py`; everything else,
      the directory `sub` included, stays because the root expression matched it. */
  lemma NestedOverride(split: string -> seq<string>, glob: string -> set<string>)
    requires split("**") == ["**"] && split("-*.py") == ["-*.py"]
    requires glob("/r/**")
             == {"/r/", "/r/.glob", "/r/a.py", "/r/a.txt", "/r/sub", "/r/sub/.glob", "/r/sub/b.py"}
    requires glob("/r/sub/*.py") == {"/r/sub/b.py"}
    ensures var files := [GlobFile("/r/sub", "-*.py"), GlobFile("/r", "")];
            Resolve(DepthSort.SortedByDepth(AllAnchored(files, split)), glob)
            == {"/r/", "/r/.glob", "/r/a.py", "/r/a.txt", "/r/sub", "/r/sub/.glob"}
  {
    NestedAnchored(split);
    NestedSorted();
    NestedResolved(glob);
  }

  /** Anchoring the two declaration files, in discovery order. */
  lemma NestedAnchored(split: string -> seq<string>)
    requires split("**") == ["**"] && split("-*.py") == ["-*.py"]
    ensures AllAnchored([GlobFile("/r/sub", "-*.py"), GlobFile("/r", "")], split)
            == ["-/r/sub/*.py", "/r/**"]
  {
    var files := [GlobFile("/r/sub", "-*.py"), GlobFile("/r", "")];
    NestedSubAnchor();
    NestedRootAnchor();
    assert files[..1] == [files[0]];
    assert [files[0]][..0] == [];
  }

  /** The expression of `sub`'s declaration file. */
  lemma NestedSubAnchor()
    ensures Anchor("/r/sub", "-*.py") == "-/r/sub/*.py"
  {
    ToAdditiveNegated(1, "", "*.py", "");
    assert Repeat('-', 1) + "" + "*.py" + "" == "-*.py";
    assert Expand("*.py") == "*.py";
    assert "-" + Join("/r/sub", "*.py") == "-/r/sub/*.py";
  }

  /** The expression of the root's empty declaration file. */
  lemma NestedRootAnchor()
    ensures Anchor("/r", "**") == "/r/**"
  {
    assert ToAdditive("**") == Signed("**", true);
    assert Expand("**") == "**";
  }

  /** The deeper subtractive expression moves behind the root expression. */
  lemma NestedSorted()
    ensures DepthSort.SortedByDepth(["-/r/sub/*.py", "/r/**"]) == ["/r/**", "-/r/sub/*.py"]
  {
    NestedSubDepth();
    NestedRootDepth();
    DepthSort.SortSwapsPair("-/r/sub/*.py", "/r/**");
  }

  /** Depth of the expression of `sub`. */
  lemma NestedSubDepth()
    ensures DepthSort.Depth("-/r/sub/*.py") == 3
  {
  }

  /** Depth of the root expression. */
  lemma NestedRootDepth()
    ensures DepthSort.Depth("/r/**") == 2
  {
  }

  /** `paths` reads the expression of `sub` as subtractive. */
  lemma NestedSubReadBack()
    ensures ToAdditive("-/r/sub/*.py") == Signed("/r/sub/*.py", false)
  {
    ToAdditiveNegated(1, "", "/r/sub/*.py", "");
    assert Repeat('-', 1) + "" + "/r/sub/*.py" + "" == "-/r/sub/*.py";
  }

  /** Folding the two sorted expressions. */
  lemma NestedResolved(glob: string -> set<string>)
    requires glob("/r/**")
             == {"/r/", "/r/.glob", "/r/a.py", "/r/a.txt", "/r/sub", "/r/sub/.glob", "/r/sub/b.py"}
    requires glob("/r/sub/*.py") == {"/r/sub/b.py"}
    ensures Resolve(["/r/**", "-/r/sub/*.py"], glob)
            == {"/r/", "/r/.glob", "/r/a.py", "/r/a.txt", "/r/sub", "/r/sub/.glob"}
  {
    var sub, root := "-/r/sub/*.py", "/r/**";
    NestedSubReadBack();
    assert ToAdditive(root) == Signed(root, true);
    assert [root, sub][..1] == [root];
    assert [root][..0] == [];
  }

  /** The `/` count decides, not the depth of the declaration file. The root
      file `/r/.glob` holds a pattern for the Python files anywhere below `sub`,
      and `sub`'s file holds `-*.py`. The root expression has four `/` and the
      expression of `sub` only three, so the root expression is applied last and
      `sub/b.py` stays selected although the deeper file removes it. */
  lemma ShallowFileApplied(split: string -> seq<string>, glob: string -> set<string>)
    requires split("sub/**/*.py") == ["sub/**/*.py"] && split("-*.py") == ["-*.py"]
    requires glob("/r/sub/**/*.py") == {"/r/sub/b.py"}
    requires glob("/r/sub/*.py") == {"/r/sub/b.py"}
    ensures var files := [GlobFile("/r/sub", "-*.py"), GlobFile("/r", "sub/**/*.py")];
            Resolve(DepthSort.SortedByDepth(AllAnchored(files, split)), glob)
            == {"/r/sub/b.py"}
  {
    var files := [GlobFile("/r/sub", "-*.py"), GlobFile("/r", "sub/**/*.py")];
    NestedSubAnchor();
    DeepRootAnchor();
    assert files[..1] == [files[0]];
    assert [files[0]][..0] == [];
    assert AllAnchored(files, split) == ["-/r/sub/*.py", "/r/sub/**/*.py"];
    NestedSubDepth();
    DeepRootDepth();
    DepthSort.SortKeepsPair("-/r/sub/*.py", "/r/sub/**/*.py");
    DeepRootResolved(glob);
  }

  /** The root expression that reaches into `sub`. */
  lemma DeepRootAnchor()
    ensures Anchor("/r", "sub/**/*.py") == "/r/sub/**/*.py"
  {
    assert ToAdditive("sub/**/*.py") == Signed("sub/**/*.py", true);
    assert Expand("sub/**/*.py") == "sub/**/*.py";
  }

  /** Depth of the root expression that reaches into `sub`. */
  lemma DeepRootDepth()
    ensures DepthSort.Depth("/r/sub/**/*.py") == 4
  {
    assert DepthSort.Depth("/r/sub/") == 3;
    assert DepthSort.Depth("**/*.py") == 1;
    assert "/r/sub/" + "**/*.py" == "/r/sub/**/*.py";
    CountAppend("/r/sub/", "**/*.py", '/');
  }

  /** Folding: the removal comes first, then the root expression adds `sub/b.py` back. */
  lemma DeepRootResolved(glob: string -> set<string>)
    requires glob("/r/sub/**/*.py") == {"/r/sub/b.py"}
    requires glob("/r/sub/*.py") == {"/r/sub/b.py"}
    ensures Resolve(["-/r/sub/*.py", "/r/sub/**/*.py"], glob) == {"/r/sub/b.py"}
  {
    var sub, root := "-/r/sub/*.py", "/r/sub/**/*.py";
    NestedSubReadBack();
    assert ToAdditive(root) == Signed(root, true);
    assert [sub, root][..1] == [sub];
    assert [sub][..0] == [];
  }
}
