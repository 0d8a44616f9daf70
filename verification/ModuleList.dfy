/** From the modules of a server to the module list of a client: nc_server_get_cpblts_version()
    (src/session.c:1066-1282), the <hello>, and build_module_info_cpblts() (src/session_client.c:1003-1070). */
module ModuleList {
  import opened Bytes
  import opened CapabilityList
  import opened Framing
  import opened Handshake
  import opened Hello
  import opened ModuleCaps
  import opened Negotiation
  import opened Sequences
  import opened Writer

  /** The LYS_VERSION argument. */
  datatype Filter = AnyVersion | Only10 | Only11

  predicate IsYangLibrary(m: Module) {
    m.name == "ietf-yang-library"
  }

  /** The module is advertised by its own capability. */
  predicate Wanted(m: Module, filter: Filter) {
    !IsYangLibrary(m) && (filter == Only10 ==> !m.yang11) && (filter == Only11 ==> m.yang11)
  }

  /** Text that does not add to the structure of a query. */
  predicate Unstructured(s: string) {
    '&' !in s && '=' !in s
  }

  /** The capability for the YANG library (RFC 8526 section 2 and RFC 7950 section 5.6.4). */
  function LibraryText(revision: string, contentId: string): string {
    LibraryUri(revision) + "?" + Query([Field("revision", revision), Field(LibraryKey(revision), contentId)])
  }

  const CAPABILITY := "urn:ietf:params:netconf:capability:"

  function LibraryUri(revision: string): string {
    CAPABILITY + if revision == "2019-01-04" then "yang-library:1.1" else "yang-library:1.0"
  }

  function LibraryKey(revision: string): string {
    if revision == "2019-01-04" then "content-id" else "module-set-id"
  }

  predicate KnownLibrary(m: Module) {
    m.revision == Some("2019-01-04") || m.revision == Some("2016-06-21")
  }

  /** The capabilities added for one module; `None` for the YANG library in an unknown revision. */
  function LinesOf(m: Module, filter: Filter, contentId: string): Option<seq<string>> {
    if IsYangLibrary(m) then
      if KnownLibrary(m) then Some([LibraryText(m.revision.value, contentId)]) else None
    else if Wanted(m, filter) then Some([ModuleText(m)])
    else Some([])
  }

  /** The results of `f` one after the other, or `None` if there is one without a result. */
  function Collect<A, B>(f: A -> Option<seq<B>>, s: seq<A>): Option<seq<B>> {
    if s == [] then Some([])
    else
      var before, last := Collect(f, s[..|s| - 1]), f(s[|s| - 1]);
      if before.None? || last.None? then None else Some(before.value + last.value)
  }

  lemma {:induction false} CollectFail<A, B>(f: A -> Option<seq<B>>, s: seq<A>, u: nat)
    requires u <= |s| && Collect(f, s[..u]).None?
    ensures Collect(f, s).None?
  {
    if u == |s| {
      assert s[..u] == s;
    } else {
      var n := |s| - 1;
      assert s[..n][..u] == s[..u];
      CollectFail(f, s[..n], u);
    }
  }

  function LineMaker(filter: Filter, contentId: string): Module -> Option<seq<string>> {
    m => LinesOf(m, filter, contentId)
  }

  /** The capabilities added for the modules, in order. */
  function Lines(mods: seq<Module>, filter: Filter, contentId: string): Option<seq<string>> {
    Collect(LineMaker(filter, contentId), mods)
  }

  /** The modules with a capability of their own. */
  function Advertised(mods: seq<Module>, filter: Filter): seq<Module> {
    if mods == [] then []
    else
      var n := |mods| - 1;
      Advertised(mods[..n], filter) + if Wanted(mods[n], filter) then [mods[n]] else []
  }

  function InfosOf(mods: seq<Module>): seq<ModuleInfo> {
    seq(|mods|, i requires 0 <= i < |mods| => InfoOf(mods[i]))
  }

  /** The module info of one capability, if it has one. */
  function ParseOne(c: string): seq<ModuleInfo> {
    var info := ParseModule(c);
    if info.Some? then [info.value] else []
  }

  /** The module infos of a capability list, in order. */
  function ParseAll(cs: seq<string>): seq<ModuleInfo> {
    FlatMap(ParseOne, cs)
  }

  lemma {:induction false} ParseAllNone(cs: seq<string>)
    requires forall i :: 0 <= i < |cs| ==> !Contains(cs[i], "module=")
    ensures ParseAll(cs) == []
  {
    if cs != [] {
      ParseAllNone(cs[..|cs| - 1]);
    }
  }

  /** The list with a text put before its first element. */
  function Prefixed(s: string, parts: seq<string>): seq<string>
    requires parts != []
  {
    [s + parts[0]] + parts[1..]
  }

  lemma PrefixedEmpty(parts: seq<string>)
    requires parts != []
    ensures Prefixed("", parts) == parts
  {
    assert "" + parts[0] == parts[0];
  }

  /** The result of the loop below from a point where the list `done` is complete, `part` is the beginning of the
      next feature, and `s` is ahead. */
  function SplitFrom(done: seq<string>, part: string, s: string): seq<string> {
    done + Prefixed(part, Split(UpToAmp(s)))
  }

  lemma SplitTurn(done: seq<string>, part: string, s: string)
    requires s != "" && s[0] != '&'
    ensures SplitFrom(done, part, s) ==
            if s[0] == ',' then SplitFrom(done + [part], "", s[1..]) else SplitFrom(done, part + [s[0]], s[1..])
  {
    var rest := Split(UpToAmp(s[1..]));
    assert UpToAmp(s)[1..] == UpToAmp(s[1..]);
    if s[0] == ',' {
      assert ([""] + rest)[1..] == rest;
      assert part + "" == part;
      PrefixedEmpty(rest);
      assert done + ([part] + rest) == done + [part] + rest;
    } else {
      assert Split(UpToAmp(s)) == [[s[0]] + rest[0]] + rest[1..];
      Assoc(part, [s[0]], rest[0]);
    }
  }

  lemma SplitEnd(done: seq<string>, part: string, s: string)
    requires s == "" || s[0] == '&'
    ensures SplitFrom(done, part, s) == done + [part]
  {
    assert part + "" == part;
  }

  lemma SplitStart(s: string)
    ensures SplitFrom([], "", s) == Split(UpToAmp(s))
  {
    PrefixedEmpty(Split(UpToAmp(s)));
  }

  lemma SplitNext(done: seq<string>, q: string, ptr2: nat, ptr: nat)
    requires ptr2 <= ptr < |q| && q[ptr] != '&'
    ensures SplitFrom(done, q[ptr2..ptr], q[ptr..]) ==
            if q[ptr] == ',' then SplitFrom(done + [q[ptr2..ptr]], q[ptr + 1..ptr + 1], q[ptr + 1..])
            else SplitFrom(done, q[ptr2..ptr + 1], q[ptr + 1..])
  {
    SplitTurn(done, q[ptr2..ptr], q[ptr..]);
    assert q[ptr..][1..] == q[ptr + 1..];
    assert q[ptr2..ptr + 1] == q[ptr2..ptr] + [q[ptr]];
    assert q[ptr + 1..ptr + 1] == "";
  }

  /** The loop has reached `ptr` with the features before `ptr2` complete. */
  ghost predicate SplitSoFar(q: string, done: seq<string>, ptr2: nat, ptr: nat) {
    ptr2 <= ptr <= |q| && SplitFrom(done, q[ptr2..ptr], q[ptr..]) == Split(UpToAmp(q))
  }

  lemma SplitBegins(q: string)
    ensures SplitSoFar(q, [], 0, 0)
  {
    SplitStart(q);
    assert q[0..] == q && q[0..0] == "";
  }

  lemma SplitGoesOn(q: string, done: seq<string>, ptr2: nat, ptr: nat)
    requires SplitSoFar(q, done, ptr2, ptr) && ptr < |q| && q[ptr] != '&'
    ensures if q[ptr] == ',' then SplitSoFar(q, done + [q[ptr2..ptr]], ptr + 1, ptr + 1)
            else SplitSoFar(q, done, ptr2, ptr + 1)
  {
    SplitNext(done, q, ptr2, ptr);
  }

  lemma SplitEnds(q: string, done: seq<string>, ptr2: nat, ptr: nat)
    requires SplitSoFar(q, done, ptr2, ptr) && (ptr == |q| || q[ptr] == '&')
    ensures done + [q[ptr2..ptr]] == Split(UpToAmp(q))
  {
    SplitEnd(done, q[ptr2..ptr], q[ptr..]);
  }

  /** Splitting the features (src/session_client.c:1047-1065): the text from `q` up to '&', at its commas. */
  method SplitFeatures(q: string) returns (features: seq<string>)
    ensures features == Split(UpToAmp(q))
  {
    var ptr, ptr2 := 0, 0;
    features := [];
    SplitBegins(q);
    while ptr < |q| && q[ptr] != '&'
      invariant ptr2 <= ptr <= |q|
      invariant SplitSoFar(q, features, ptr2, ptr)
    {
      SplitGoesOn(q, features, ptr2, ptr);
      if q[ptr] == ',' {
        features := features + [q[ptr2..ptr]];
        ptr2 := ptr + 1;
      }
      ptr := ptr + 1;
    }
    SplitEnds(q, features, ptr2, ptr);
    features := features + [q[ptr2..ptr]];
  }

  /** One turn of build_module_info_cpblts(). */
  method BuildOne(c: string) returns (infos: seq<ModuleInfo>)
    ensures infos == ParseOne(c)
  {
    var start := Find(c, "module=", 0);
    if start.None? {
      return [];
    }
    var q := c[start.value..];
    var features: Option<seq<string>> := None;
    var list := Find(q, "features=", 0);
    assert "features" + "=" == "features=";
    if list.Some? {
      var names := SplitFeatures(q[list.value + 9..]);
      features := Some(names);
    }
    return [ModuleInfo(UpToAmp(q[7..]), Lookup(q, "revision"), features)];
  }

  /** build_module_info_cpblts(). */
  method BuildModuleInfo(cpblts: seq<string>) returns (result: seq<ModuleInfo>)
    ensures result == ParseAll(cpblts)
  {
    result := [];
    for u := 0 to |cpblts|
      invariant result == ParseAll(cpblts[..u])
    {
      assert cpblts[..u + 1][..u] == cpblts[..u];
      var infos := BuildOne(cpblts[u]);
      result := result + infos;
    }
    assert cpblts[..|cpblts|] == cpblts;
  }

  lemma {:induction false} AddAllAppend(list: seq<string>, a: seq<string>, b: seq<string>)
    ensures AddAll(list, a + b) == AddAll(AddAll(list, a), b)
  {
    if b == [] {
      assert a + b == a;
    } else {
      var n := |b| - 1;
      assert (a + b)[..|a| + n] == a + b[..n] && (a + b)[|a| + n] == b[n];
      AddAllAppend(list, a, b[..n]);
    }
  }

  lemma {:induction false} KeyIsWhole(c: string)
    requires '?' !in c
    ensures Key(c) == c
  {
    if c != "" {
      KeyIsWhole(c[1..]);
    }
  }

  lemma AddPair(a: string, b: string)
    requires '?' !in a && '?' !in b && a != b
    ensures AddAll([], [a, b]) == [a, b]
  {
    KeyIsWhole(a);
    KeyIsWhole(b);
    DistinctAllStay([a, b]);
  }

  /** The loop over the configured capabilities (src/session.c:1172-1175). */
  method AddEach(cpblts: Cpblts, cs: seq<string>)
    requires cpblts.Valid()
    modifies cpblts, cpblts.items
    ensures cpblts.Valid() && (cpblts.items == old(cpblts.items) || fresh(cpblts.items))
    ensures cpblts.Contents() == AddAll(old(cpblts.Contents()), cs)
  {
    for u := 0 to |cs|
      invariant cpblts.Valid() && (cpblts.items == old(cpblts.items) || fresh(cpblts.items))
      invariant cpblts.Contents() == AddAll(old(cpblts.Contents()), cs[..u])
    {
      assert cs[..u + 1][..u] == cs[..u];
      cpblts.Add(cs[u]);
    }
    assert cs[..|cs|] == cs;
  }

  const LIBRARY_11 := CAPABILITY + "yang-library:1.1" + "?" + ("revision=" + "2019-01-04" + "&content-id=")
  const LIBRARY_10 := CAPABILITY + "yang-library:1.0" + "?" + ("revision=" + "2016-06-21" + "&module-set-id=")

  lemma QueryOfTwo(a: Field, b: Field)
    ensures Query([a, b]) == (a.key + "=") + a.value + ("&" + b.key + "=") + b.value
  {
    assert [a, b][1..] == [b];
    Assoc(a.Text(), "&", b.Text());
    Assoc("&", b.key + "=", b.value);
    Assoc(a.Text(), "&" + (b.key + "="), b.value);
    Assoc("&", b.key, "=");
  }

  lemma QueryEnds(uri: string, a: Field, b: Field)
    ensures uri + Query([a, b]) == uri + ((a.key + "=") + a.value + ("&" + b.key + "=")) + b.value
  {
    QueryOfTwo(a, b);
    Assoc(uri, (a.key + "=") + a.value + ("&" + b.key + "="), b.value);
  }

  /** The texts for the two known revisions of the YANG library. */
  lemma LibraryTextIs(contentId: string)
    ensures LibraryText("2019-01-04", contentId) == LIBRARY_11 + contentId
    ensures LibraryText("2016-06-21", contentId) == LIBRARY_10 + contentId
  {
    QueryEnds(CAPABILITY + "yang-library:1.1" + "?",
              Field("revision", "2019-01-04"), Field("content-id", contentId));
    QueryEnds(CAPABILITY + "yang-library:1.0" + "?",
              Field("revision", "2016-06-21"), Field("module-set-id", contentId));
    assert "revision" + "=" == "revision=";
    assert "&" + "content-id" + "=" == "&content-id=" && "&" + "module-set-id" + "=" == "&module-set-id=";
  }

  /** What one turn of the loop over the modules adds (src/session.c:1179-1271); `None` stands for the error. */
  method ModuleLines(m: Module, filter: Filter, contentId: string) returns (lines: Option<seq<string>>)
    ensures lines == LinesOf(m, filter, contentId)
  {
    if m.name == "ietf-yang-library" {
      if m.revision.None? || (m.revision.value != "2016-06-21" && m.revision.value != "2019-01-04") {
        return None;
      }
      LibraryTextIs(contentId);
      if m.revision.value == "2019-01-04" {
        return Some([LIBRARY_11 + contentId]);
      }
      return Some([LIBRARY_10 + contentId]);
    } else if filter == Only10 && m.yang11 {
      return Some([]);
    } else if filter == Only11 && !m.yang11 {
      return Some([]);
    }
    var str, _ := PrintModule(m);
    return Some([str]);
  }

  /** The loop over the modules. */
  method AddModules(cpblts: Cpblts, mods: seq<Module>, filter: Filter, contentId: string) returns (ok: bool)
    requires cpblts.Valid()
    modifies cpblts, cpblts.items
    ensures cpblts.Valid()
    ensures ok <==> Lines(mods, filter, contentId).Some?
    ensures ok ==> cpblts.Contents() == AddAll(old(cpblts.Contents()), Lines(mods, filter, contentId).value)
  {
    for u := 0 to |mods|
      invariant cpblts.Valid() && (cpblts.items == old(cpblts.items) || fresh(cpblts.items))
      invariant Lines(mods[..u], filter, contentId).Some?
      invariant cpblts.Contents() == AddAll(old(cpblts.Contents()), Lines(mods[..u], filter, contentId).value)
    {
      assert mods[..u + 1][..u] == mods[..u];
      var lines := ModuleLines(mods[u], filter, contentId);
      if lines.None? {
        CollectFail(LineMaker(filter, contentId), mods, u + 1);
        return false;
      }
      AddAllAppend(old(cpblts.Contents()), Lines(mods[..u], filter, contentId).value, lines.value);
      AddEach(cpblts, lines.value);
    }
    assert mods[..|mods|] == mods;
    ok := true;
  }

  /** nc_server_get_cpblts_version(): the base capabilities, `others` (protocol capabilities and configured ones)
      and those of the modules, each key once. */
  method ServerCapabilities(others: seq<string>, mods: seq<Module>, filter: Filter, contentId: string)
    returns (list: Option<seq<string>>)
    ensures var lines := Lines(mods, filter, contentId);
            list == if lines.None? then None else Some(Firsts([BASE_10, BASE_11] + others + lines.value))
  {
    var cpblts := new Cpblts(BASE_10, BASE_11);
    BaseIsPlain();
    AddPair(BASE_10, BASE_11);
    AddEach(cpblts, others);
    AddAllAppend([], [BASE_10, BASE_11], others);
    var ok := AddModules(cpblts, mods, filter, contentId);
    if !ok {
      return None;
    }
    ghost var lines := Lines(mods, filter, contentId).value;
    AddAllAppend([], [BASE_10, BASE_11] + others, lines);
    AddAllIsFirsts([BASE_10, BASE_11] + others + lines);
    list := Some(cpblts.items[..cpblts.count]);
  }

  /** No capability but those of the modules mentions a module. */
  ghost predicate NoModule(cs: seq<string>) {
    forall i :: 0 <= i < |cs| ==> !Contains(cs[i], "module=")
  }

  /** A text without a character of the pattern does not contain the pattern. */
  lemma ContainsNot(s: string, pat: string, k: nat)
    requires k < |pat| && pat[k] !in s
    ensures !Contains(s, pat)
  {
  }

  /** A query with other keys does not contain "module=". */
  lemma QueryIsNoModule(ns: string, fields: seq<Field>)
    requires '=' !in ns && fields != [] && Separate(fields, "module") && ValueOf(fields, "module") == None
    ensures !Contains(ns + "?" + Query(fields), "module=")
  {
    LookupQuery(fields, "module");
    assert "module" + "=" == "module=";
    ContainsNot(ns, "module=", 6);
    FindPast(ns, Query(fields), "module=");
  }

  lemma TwoFields(a: Field, b: Field, key: string)
    requires a.Good() && b.Good() && !EndsWith(a.key, key) && !EndsWith(b.key, key) && '&' !in key && '=' !in key
    ensures Separate([a, b], key) && ValueOf([a, b], key) == None
  {
    assert EndsWith(key, key) by { assert key[0..] == key; }
    assert [a, b][1..] == [b] && [b][1..] == [];
    assert ValueOf([], key) == None;
    assert ValueOf([b], key) == None;
  }

  lemma NotInEither(c: char, a: string, b: string)
    requires c !in a && c !in b
    ensures c !in a + b
  {
  }

  lemma CapabilityIsPlain()
    ensures '=' !in CAPABILITY
  {
  }

  lemma LibraryUriPlain(revision: string)
    ensures '=' !in LibraryUri(revision)
  {
    CapabilityIsPlain();
    NotInEither('=', CAPABILITY, "yang-library:1.0");
    NotInEither('=', CAPABILITY, "yang-library:1.1");
  }

  lemma LastDiffers(s: string, t: string)
    requires s != "" && t != "" && s[|s| - 1] != t[|t| - 1]
    ensures !EndsWith(s, t)
  {
  }

  /** A key that is not mistaken for "module". */
  predicate OtherKey(key: string) {
    '&' !in key && '=' !in key && !EndsWith(key, "module")
  }

  lemma KeyRevision()
    ensures OtherKey("revision")
  {
    LastDiffers("revision", "module");
  }

  lemma KeyContentId()
    ensures OtherKey("content-id")
  {
    LastDiffers("content-id", "module");
  }

  lemma KeyModuleSetId()
    ensures OtherKey("module-set-id")
  {
    LastDiffers("module-set-id", "module");
  }

  lemma LibraryIsNoModule(revision: string, contentId: string)
    requires Unstructured(contentId) && '&' !in revision && '=' !in revision
    ensures !Contains(LibraryText(revision, contentId), "module=")
  {
    var f, g := Field("revision", revision), Field(LibraryKey(revision), contentId);
    KeyRevision();
    KeyContentId();
    KeyModuleSetId();
    TwoFields(f, g, "module");
    LibraryUriPlain(revision);
    QueryIsNoModule(LibraryUri(revision), [f, g]);
  }

  ghost predicate AllGood(mods: seq<Module>) {
    forall i :: 0 <= i < |mods| ==> GoodModule(mods[i])
  }

  /** One module: its capabilities tell a client about it if and only if it is advertised by one of its own. */
  lemma LinesOfParse(m: Module, filter: Filter, contentId: string)
    requires Unstructured(contentId) && LinesOf(m, filter, contentId).Some?
    requires AllGood(if Wanted(m, filter) then [m] else [])
    ensures ParseAll(LinesOf(m, filter, contentId).value) == InfosOf(if Wanted(m, filter) then [m] else [])
  {
    if Wanted(m, filter) {
      assert GoodModule([m][0]);
      OwnLineParse(m);
    } else if IsYangLibrary(m) {
      LibraryIsNoModule(m.revision.value, contentId);
      ParseAllNone([LibraryText(m.revision.value, contentId)]);
    }
  }

  lemma OwnLineParse(m: Module)
    requires GoodModule(m)
    ensures ParseAll([ModuleText(m)]) == InfosOf([m])
  {
    ParseModuleText(m);
    FlatMapOne(ParseOne, ModuleText(m));
  }

  /** The capabilities of the modules tell a client about the advertised ones, in order. */
  lemma {:induction false} LinesParse(mods: seq<Module>, filter: Filter, contentId: string)
    requires Unstructured(contentId) && Lines(mods, filter, contentId).Some?
    requires AllGood(Advertised(mods, filter))
    ensures ParseAll(Lines(mods, filter, contentId).value) == InfosOf(Advertised(mods, filter))
  {
    if mods != [] {
      var n := |mods| - 1;
      var m, before := mods[n], Advertised(mods[..n], filter);
      AllGoodSplit(before, if Wanted(m, filter) then [m] else []);
      LinesParse(mods[..n], filter, contentId);
      LinesOfParse(m, filter, contentId);
      FlatMapAppend(ParseOne, Lines(mods[..n], filter, contentId).value, LinesOf(m, filter, contentId).value);
    }
  }

  lemma AllGoodSplit(a: seq<Module>, b: seq<Module>)
    requires AllGood(a + b)
    ensures AllGood(a) && AllGood(b) && InfosOf(a + b) == InfosOf(a) + InfosOf(b)
  {
    assert forall i :: 0 <= i < |a| ==> a[i] == (a + b)[i];
    assert forall i :: 0 <= i < |b| ==> b[i] == (a + b)[|a| + i];
    InfosAppend(a, b);
  }

  lemma InfosAppend(a: seq<Module>, b: seq<Module>)
    ensures InfosOf(a + b) == InfosOf(a) + InfosOf(b)
  {
  }

  /** No capability that names a module is preceded by one with the same key. */
  ghost predicate ModulesFirst(cs: seq<string>) {
    forall i :: 0 <= i < |cs| && Contains(cs[i], "module=") ==> FirstWithKey(cs, i)
  }

  lemma ModulesFirstPrefix(cs: seq<string>, c: string)
    ensures ModulesFirst(cs + [c]) <==>
            ModulesFirst(cs) && (Contains(c, "module=") ==> FirstWithKey(cs + [c], |cs|))
  {
    var cs' := cs + [c];
    forall i | 0 <= i < |cs| ensures FirstWithKey(cs', i) == FirstWithKey(cs, i) && cs'[i] == cs[i] {
      assert cs'[..i] == cs[..i];
    }
    assert cs'[|cs|] == c;
  }

  /** Leaving out repeated keys loses no module, or loses some for good. */
  lemma {:induction false} FirstsParse(cs: seq<string>)
    ensures ModulesFirst(cs) ==> ParseAll(Firsts(cs)) == ParseAll(cs)
    ensures !ModulesFirst(cs) ==> |ParseAll(Firsts(cs))| < |ParseAll(cs)|
  {
    if cs != [] {
      var n := |cs| - 1;
      var before, c := cs[..n], cs[n];
      assert cs == before + [c];
      FirstsParse(before);
      ModulesFirstPrefix(before, c);
      FirstsTurn(before, c);
    }
  }

  lemma FirstsTurn(cs: seq<string>, c: string)
    ensures ParseAll(Firsts(cs + [c])) ==
            ParseAll(Firsts(cs)) + if FirstWithKey(cs + [c], |cs|) then ParseOne(c) else []
    ensures ParseAll(cs + [c]) == ParseAll(cs) + ParseOne(c)
    ensures |ParseOne(c)| == if Contains(c, "module=") then 1 else 0
  {
    assert (cs + [c])[..|cs|] == cs;
    var f := Firsts(cs);
    assert (f + [c])[..|f|] == f;
    assert f + [] == f;
  }

  /** A client that is given the capability list of a server learns exactly the advertised modules, in order and with
      their revisions and the features that fitted, unless one is hidden by an earlier capability with its key; then it
      learns of fewer. */
  lemma KnownIff(base: seq<string>, mods: seq<Module>, filter: Filter, contentId: string)
    requires Unstructured(contentId) && Lines(mods, filter, contentId).Some?
    requires AllGood(Advertised(mods, filter)) && NoModule(base)
    ensures var cs := base + Lines(mods, filter, contentId).value;
            && (ModulesFirst(cs) ==> ParseAll(Firsts(cs)) == InfosOf(Advertised(mods, filter)))
            && (!ModulesFirst(cs) ==> |ParseAll(Firsts(cs))| < |Advertised(mods, filter)|)
  {
    var lines := Lines(mods, filter, contentId).value;
    ParseAllNone(base);
    FlatMapAppend(ParseOne, base, lines);
    LinesParse(mods, filter, contentId);
    FirstsParse(base + lines);
  }

  /** The key of a module's capability is its namespace. */
  lemma KeyOfModule(m: Module)
    requires '?' !in m.ns
    ensures Key(ModuleText(m)) == m.ns
  {
    TextIsQuery(m);
    KeyOfQuery(m.ns, Query(Fields(m)));
  }

  lemma BaseIsPlain()
    ensures '=' !in BASE_10 && '=' !in BASE_11 && '?' !in BASE_10 && '?' !in BASE_11 && BASE_10 != BASE_11
  {
    assert BASE_10[31] != BASE_11[31];
  }

  lemma BaseIsNoModule(others: seq<string>)
    requires NoModule(others)
    ensures NoModule([BASE_10, BASE_11] + others)
  {
    BaseIsPlain();
    ContainsNot(BASE_10, "module=", 6);
    ContainsNot(BASE_11, "module=", 6);
    NoModulePair(BASE_10, BASE_11, others);
  }

  lemma NoModulePair(a: string, b: string, others: seq<string>)
    requires !Contains(a, "module=") && !Contains(b, "module=") && NoModule(others)
    ensures NoModule([a, b] + others)
  {
  }

  lemma {:induction false} FirstsKeeps(cs: seq<string>, i: nat)
    requires i < |cs| && FirstWithKey(cs, i)
    ensures cs[i] in Firsts(cs)
  {
    var n := |cs| - 1;
    if i < n {
      assert cs[..n][..i] == cs[..i];
      FirstsKeeps(cs[..n], i);
    }
  }

  /** No capability is empty or has white space around it. */
  ghost predicate Tight(list: seq<string>) {
    TrimAll(list) == list && "" !in list
  }

  /** What a client learns from a <hello>: the version, its session-id and the modules. */
  datatype Lesson = Lesson(version: Version, sid: nat, modules: seq<ModuleInfo>)

  /** What a client that awaits a <hello> makes of the bytes of a server. */
  function Learned(s: string): Option<Lesson> {
    var r := ReadMsg(V10, s);
    if !r.Msg? then None
    else
      var hello := ParseHello(r.data);
      if hello.None? || hello.value.sid.None? then None
      else
        var caps, sid := hello.value.caps, SessionIdOf(hello.value.sid.value);
        if Negotiated(caps).None? || sid.None? then None
        else Some(Lesson(Negotiated(caps).value, sid.value, ParseAll(TrimAll(caps))))
  }

  /** The client chooses NETCONF 1.1 and learns its session-id and what the capabilities say, whatever follows the
      <hello>, if and only if the session-id is one. */
  lemma LearnedFromHello(list: seq<string>, sid: nat, chunks: seq<string>, rest: string, infos: seq<ModuleInfo>)
    requires Tight(list) && BASE_11 in list
    requires ValidChunks(chunks) && Concat(chunks) == Texts(HelloParts(list, Some(sid)))
    ensures Learned(Frame(V10, chunks) + rest) == Some(Lesson(V11, sid, infos))
            <==> ParseAll(list) == infos && 1 <= sid <= UINT32_MAX
  {
    HelloRoundTrip(list, Some(sid), chunks, rest);
    LibraryOffersAgree(list);
    SessionIdBack(sid);
  }

  lemma BaseStays(others: seq<string>, lines: seq<string>)
    ensures BASE_11 in Firsts([BASE_10, BASE_11] + others + lines)
  {
    BaseIsPlain();
    SecondStays(BASE_10, BASE_11, others + lines);
    assert [BASE_10, BASE_11] + others + lines == [BASE_10, BASE_11] + (others + lines);
  }

  lemma SecondStays(a: string, b: string, rest: seq<string>)
    requires '?' !in a && '?' !in b && a != b
    ensures b in Firsts([a, b] + rest)
  {
    var cs := [a, b] + rest;
    KeyIsWhole(a);
    KeyIsWhole(b);
    assert cs[..1] == [a];
    FirstsKeeps(cs, 1);
  }
}
