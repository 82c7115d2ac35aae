/** The rules on field paths, which see what is reported, against what a request really asks for. */
module RealPolicy {
  import opened Ast
  import opened Text
  import opened Counters
  import opened Analyzer
  import opened Requests
  import opened Policy
  import opened Enforcement

  /** The summary that a document would have if the real paths were reported. */
  ghost function Honest(doc: Document, info: Summary): Summary {
    info.(fieldPaths := RenderAll(RealPaths(doc)))
  }

  /** Whatever the settings and the tenant, the rules on field paths decide as they would on the real paths. */
  ghost predicate JudgesRealPaths(doc: Document, hash: string)
    requires doc.operations != []
  {
    forall tenant, params, tenants, rule | rule in PATH_RULES ::
      var info := Summarize(doc, hash).(tenantId := tenant);
      Fires(rule, BuildInput(info, params, tenants)) <==> Fires(rule, BuildInput(Honest(doc, info), params, tenants))
  }

  lemma RenderAllMembers(paths: seq<seq<string>>, text: string)
    ensures text in RenderAll(paths) <==> exists path <- paths :: Render(path) == text
  {
    RenderAllLength(paths);
    if path :| path in paths && Render(path) == text {
      var i :| 0 <= i < |paths| && paths[i] == path;
      assert RenderAll(paths)[i] == text;
    }
  }

  lemma SameTexts(a: seq<seq<string>>, b: seq<seq<string>>)
    requires SamePaths(a, b)
    ensures forall text :: text in RenderAll(a) <==> text in RenderAll(b)
  {
    forall text
      ensures text in RenderAll(a) <==> text in RenderAll(b)
    {
      RenderAllMembers(a, text);
      RenderAllMembers(b, text);
    }
  }

  /** The rules on paths see only which texts are listed. */
  lemma PathRulesSeeTexts(
    rule: Rule, a: Summary, b: Summary, params: Params, tenants: map<string, Params>)
    requires rule in PATH_RULES && a.tenantId == b.tenantId
    requires forall text :: text in a.fieldPaths <==> text in b.fieldPaths
    ensures Fires(rule, BuildInput(a, params, tenants)) <==> Fires(rule, BuildInput(b, params, tenants))
  {
  }

  lemma TextPresent(paths: seq<seq<string>>, path: seq<string>)
    requires PathsNamed(paths) && (forall p <- paths :: p != []) && AreNames(path) && path != []
    ensures Render(path) in RenderAll(paths) <==> path in paths
  {
    RenderAllMembers(paths, Render(path));
    if p :| p in paths && Render(p) == Render(path) {
      RenderInjective(p, path);
    }
  }

  lemma JudgedMeansSamePaths(doc: Document, hash: string, path: seq<string>)
    requires doc.operations != [] && WellNamed(doc) && RealNamedDocument(doc) && JudgesRealPaths(doc, hash)
    requires AreNames(path) && path != []
    ensures path in KeyPaths(doc) <==> path in RealPaths(doc)
  {
    var info := Summarize(doc, hash).(tenantId := "");
    var text := Render(path);
    var params: Params := map["field_blocklist" := Arr([Str(text)])];
    assert Fires(FieldBlocklist, BuildInput(info, params, map[])) <==>
           Fires(FieldBlocklist, BuildInput(Honest(doc, info), params, map[]));
    OnlyListed(params, text, info, map[]);
    OnlyListed(params, text, Honest(doc, info), map[]);
    KeyPathsNamed(doc);
    RealPathsNamed(doc);
    MeasuresFit(doc, hash);
    TextPresent(KeyPaths(doc), path);
    TextPresent(RealPaths(doc), path);
  }

  lemma KeyPathsNamed(doc: Document)
    requires WellNamed(doc)
    ensures PathsNamed(KeyPaths(doc)) && forall path <- KeyPaths(doc) :: path != []
  {
    var paths := KeyPaths(doc);
    assert doc == Document(doc.operations, doc.fragments);
    AllPathsNamed(doc.operations, doc.fragments);
    AllPathsParentsFirst(doc.operations, doc.fragments);
    forall path | path in paths
      ensures path != []
    {
      var i :| 0 <= i < |paths| && paths[i] == path;
      assert HasParent(paths, [], i);
    }
  }

  /** The blocklists, the allowlist and the introspection rules judge the fields a document really asks for,
      under all settings, exactly when the reported paths are the real ones. */
  lemma JudgesRealPathsExactly(doc: Document, hash: string)
    requires doc.operations != [] && WellNamed(doc) && RealNamedDocument(doc)
    ensures JudgesRealPaths(doc, hash) <==> SamePaths(KeyPaths(doc), RealPaths(doc))
  {
    if SamePaths(KeyPaths(doc), RealPaths(doc)) {
      MeasuresFit(doc, hash);
      SameTexts(KeyPaths(doc), RealPaths(doc));
      forall tenant, params, tenants, rule | rule in PATH_RULES
        ensures var info := Summarize(doc, hash).(tenantId := tenant);
                Fires(rule, BuildInput(info, params, tenants)) <==>
                Fires(rule, BuildInput(Honest(doc, info), params, tenants))
      {
        var info := Summarize(doc, hash).(tenantId := tenant);
        PathRulesSeeTexts(rule, info, Honest(doc, info), params, tenants);
      }
    }
    if JudgesRealPaths(doc, hash) {
      KeyPathsNamed(doc);
      RealPathsNamed(doc);
      forall path | path in KeyPaths(doc) || path in RealPaths(doc)
        ensures path in KeyPaths(doc) && path in RealPaths(doc)
      {
        JudgedMeansSamePaths(doc, hash, path);
      }
    }
  }

  /** In particular for plain documents: no aliases, no cycles, no field-bearing fragment spread twice. */
  lemma PlainPathsJudged(doc: Document, hash: string)
    requires doc.operations != [] && WellNamed(doc) && RealNamedDocument(doc) && IsPlain(doc)
    ensures JudgesRealPaths(doc, hash)
  {
    PlainReportsRealPaths(doc);
    JudgesRealPathsExactly(doc, hash);
  }

  // ---------- Documents that are misjudged ----------

  lemma QuerySummary(selections: seq<Selection>, fragments: seq<Fragment>, hash: string)
    ensures var s := Summarize(QueryOf(selections, fragments), hash);
            && s.operationType == "query" && s.operationName == "" && s.tenantId == ""
            && s.fieldPaths == RenderAll(KeyPaths(QueryOf(selections, fragments)))
  {
  }

  /** A blocked field, or one for introspection, passes under an alias: `{ alias: name }`. */
  lemma AliasHidesField(alias: string, name: string, hash: string, params: Params, tenants: map<string, Params>)
    requires IsName(alias) && alias != name && alias !in INTROSPECTION && OnlyBlocks(params, name)
    ensures var doc := AliasedQuery(alias, name);
            Allow(InputFor(doc, hash, params, tenants)) && RealPaths(doc) == [[name]]
  {
    var doc := AliasedQuery(alias, name);
    QuerySummary([Field(name, alias, 0, [], [])], [], hash);
    AliasedPaths(alias, name);
    RenderOne(alias);
    assert [[alias]][1..] == [];
    assert Summarize(doc, hash).fieldPaths == [alias];
    PlainQueryAllowed(Summarize(doc, hash), params, name, tenants);
  }

  /** No setting but these two lists. */
  ghost predicate OnlyTwo(params: Params, allowed: string, blocked: string) {
    && OnlyLists(params)
    && Get(params, ALLOWLIST) == Some(Arr([Str(allowed)])) && Get(params, BLOCKLIST) == Some(Arr([Str(blocked)]))
  }

  lemma PairText(x: string, y: string)
    requires IsName(x)
    ensures Render([x, y]) == x + "." + y && RenderAll([[x], [x, y]]) == [x, x + "." + y]
  {
    assert [x, y][..1] == [x];
    RenderOne(x);
    assert [[x], [x, y]][1..] == [[x, y]] && [[x, y]][1..] == [];
    assert RenderAll([[x, y]]) == [Render([x, y])] + RenderAll([]);
  }

  lemma PairPasses(info: Summary, x: string, y: string, params: Params, tenants: map<string, Params>)
    requires info.fieldPaths == [x, x + "." + y] && IsName(x) && IsName(y) && OnlyTwo(params, x, y) && x != y
    ensures var i := BuildInput(info, params, tenants); !Fires(FieldBlocklist, i) && !Fires(FieldAllowlist, i)
  {
    var i := BuildInput(info, params, tenants);
    OnlyListed(params, y, info, tenants);
    assert '.' in x + "." + y by {
      assert (x + "." + y)[|x|] == '.';
    }
    assert Str(x) in [Str(x)] && x <= x + "." + y;
    forall path | path in Paths(i)
      ensures OnAllowlist(Get(params, "field_allowlist"), path)
    {
      assert Str(x).s <= path;
    }
  }

  lemma PairNoIntrospection(info: Summary, x: string, y: string, params: Params, tenants: map<string, Params>)
    requires info.fieldPaths == [x, x + "." + y] && IsName(x) && IsName(y)
    requires x !in INTROSPECTION && y !in INTROSPECTION
    ensures var i := BuildInput(info, params, tenants);
            !Fires(IntrospectionField, i) && !Fires(IntrospectionSuffix, i)
  {
    PairText(x, y);
    forall f | f in INTROSPECTION
      ensures f !in info.fieldPaths && !EndsWith(x, "." + f) && !EndsWith(x + "." + y, "." + f)
    {
      IntrospectionNames(f);
      NoIntrospection(x, f);
      assert (x + "." + y)[|x|] == '.';
      if EndsWith(x + "." + y, "." + f) {
        assert AreNames([x, y]);
        EndIsLastName([x, y], f);
      }
    }
  }

  /** A blocked root field off the allowlist passes behind a deeper spread of the same fragment:
      `{ x { ...F } ...F } fragment F on T { y }` where only `x` is allowed and `y` is blocked. */
  lemma RepeatedSpreadHidesField(
    x: string, y: string, fragment: string, typeCondition: string, hash: string, params: Params,
    tenants: map<string, Params>)
    requires IsName(x) && IsName(y) && x != y && x !in INTROSPECTION && y !in INTROSPECTION && OnlyTwo(params, x, y)
    ensures var doc := TwiceSpread(x, y, fragment, typeCondition);
            Allow(InputFor(doc, hash, params, tenants)) && [y] in RealPaths(doc)
  {
    var doc := TwiceSpread(x, y, fragment, typeCondition);
    var info := Summarize(doc, hash);
    QuerySummary(doc.operations[0].selections, doc.fragments, hash);
    TwiceSpreadKeys(x, y, fragment, typeCondition);
    TwiceSpreadReal(x, y, fragment, typeCondition);
    PairText(x, y);
    PairPasses(info, x, y, params, tenants);
    PairNoIntrospection(info, x, y, params, tenants);
    ListsDecide(info, params, tenants);
  }
}
