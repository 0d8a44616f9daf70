/** What a client learns about the modules of a server, in terms of the modules: their namespaces, and whether their
    features fit the buffer of nc_server_get_cpblts_version() (src/session.c:1066-1282). */
module ModuleRoundTrip {
  import opened Bytes
  import opened CapabilityList
  import opened Framing
  import opened Hello
  import opened ModuleCaps
  import opened ModuleList
  import opened Negotiation
  import opened TightCaps
  import opened Writer

  /** The key under which a module's capability is listed: its namespace, or the URI for the YANG library. */
  function OwnKey(m: Module, filter: Filter): Option<string> {
    if IsYangLibrary(m) then if m.revision.Some? then Some(LibraryUri(m.revision.value)) else None
    else if Wanted(m, filter) then Some(m.ns)
    else None
  }

  /** The namespace of the `i`-th module is the key of no capability before it: neither of one of `base` nor of an
      earlier module's. */
  ghost predicate Unhidden(base: seq<string>, mods: seq<Module>, filter: Filter, i: nat)
    requires i < |mods|
  {
    !HasKey(base, mods[i].ns) && forall j :: 0 <= j < i ==> OwnKey(mods[j], filter) != Some(mods[i].ns)
  }

  /** Every module to be advertised has a namespace of its own. */
  ghost predicate OwnNamespaces(base: seq<string>, mods: seq<Module>, filter: Filter) {
    forall i :: 0 <= i < |mods| && Wanted(mods[i], filter) ==> Unhidden(base, mods, filter, i)
  }

  /** The enabled features of the module fit the buffer. */
  predicate Fits(m: Module) {
    var enabled := Enabled(m.features);
    enabled == [] || |Head(m)| + 10 + |Join(enabled)| + (if |enabled| > 1 then 0 else 1) < BUF_LEN
  }

  ghost predicate AllFit(mods: seq<Module>) {
    forall i :: 0 <= i < |mods| ==> Fits(mods[i])
  }

  /** All there is to know about a module. */
  function FullInfo(m: Module): ModuleInfo {
    ModuleInfo(m.name, m.revision, if Enabled(m.features) == [] then None else Some(Enabled(m.features)))
  }

  function FullInfos(mods: seq<Module>): seq<ModuleInfo> {
    seq(|mods|, i requires 0 <= i < |mods| => FullInfo(mods[i]))
  }

  lemma InfoIsFullIff(m: Module)
    requires GoodModule(m)
    ensures InfoOf(m) == FullInfo(m) <==> Fits(m)
  {
    FeaturesCompleteIff(m);
  }

  lemma InfosAreFullIff(mods: seq<Module>)
    requires AllGood(mods)
    ensures InfosOf(mods) == FullInfos(mods) <==> AllFit(mods)
  {
    forall i | 0 <= i < |mods| ensures InfosOf(mods)[i] == FullInfos(mods)[i] <==> Fits(mods[i]) {
      InfoIsFullIff(mods[i]);
    }
  }

  lemma HasKeyAppend(a: seq<string>, b: seq<string>, key: string)
    ensures HasKey(a + b, key) <==> HasKey(a, key) || HasKey(b, key)
  {
    if i :| 0 <= i < |a| && Key(a[i]) == key {
      assert Key((a + b)[i]) == key;
    }
    if i :| 0 <= i < |b| && Key(b[i]) == key {
      assert Key((a + b)[|a| + i]) == key;
    }
  }

  lemma CapabilityHasNoQuery()
    ensures '?' !in CAPABILITY
  {
  }

  lemma KeyOfLibrary(revision: string, contentId: string)
    ensures Key(LibraryText(revision, contentId)) == LibraryUri(revision)
  {
    CapabilityHasNoQuery();
    NotInEither('?', CAPABILITY, "yang-library:1.0");
    NotInEither('?', CAPABILITY, "yang-library:1.1");
    KeyOfQuery(LibraryUri(revision), Query([Field("revision", revision), Field(LibraryKey(revision), contentId)]));
  }

  /** The capability of a module is listed under the module's key and names a module if it is the module's own. */
  lemma LineKey(m: Module, filter: Filter, contentId: string)
    requires Unstructured(contentId) && LinesOf(m, filter, contentId).Some? && (Wanted(m, filter) ==> GoodModule(m))
    ensures var lines := LinesOf(m, filter, contentId).value;
            && (OwnKey(m, filter).None? ==> lines == [])
            && (OwnKey(m, filter).Some? ==>
                  && |lines| == 1 && Key(lines[0]) == OwnKey(m, filter).value
                  && (Contains(lines[0], "module=") <==> Wanted(m, filter)))
  {
    if Wanted(m, filter) {
      ModuleNamesItself(m);
    } else if IsYangLibrary(m) {
      LibraryNamesNone(m, contentId);
    }
  }

  lemma ModuleNamesItself(m: Module)
    requires GoodModule(m)
    ensures Key(ModuleText(m)) == m.ns && Contains(ModuleText(m), "module=")
  {
    KeyOfModule(m);
    ParseModuleText(m);
  }

  lemma LibraryNamesNone(m: Module, contentId: string)
    requires KnownLibrary(m) && Unstructured(contentId)
    ensures var text := LibraryText(m.revision.value, contentId);
            Key(text) == LibraryUri(m.revision.value) && !Contains(text, "module=")
  {
    KeyOfLibrary(m.revision.value, contentId);
    LibraryIsNoModule(m.revision.value, contentId);
  }

  ghost predicate SomeOwnKey(mods: seq<Module>, filter: Filter, key: string) {
    exists j :: 0 <= j < |mods| && OwnKey(mods[j], filter) == Some(key)
  }

  lemma SomeOwnKeySnoc(mods: seq<Module>, filter: Filter, key: string)
    requires mods != []
    ensures SomeOwnKey(mods, filter, key) <==>
            SomeOwnKey(mods[..|mods| - 1], filter, key) || OwnKey(mods[|mods| - 1], filter) == Some(key)
  {
    var n := |mods| - 1;
    if j :| 0 <= j < n && OwnKey(mods[..n][j], filter) == Some(key) {
      assert OwnKey(mods[j], filter) == Some(key);
    }
    if j :| 0 <= j < |mods| && OwnKey(mods[j], filter) == Some(key) {
      assert j < n ==> mods[..n][j] == mods[j];
    }
  }

  lemma AdvertisedSnoc(mods: seq<Module>, filter: Filter)
    requires mods != [] && AllGood(Advertised(mods, filter))
    ensures AllGood(Advertised(mods[..|mods| - 1], filter))
    ensures Wanted(mods[|mods| - 1], filter) ==> GoodModule(mods[|mods| - 1])
  {
    var m := mods[|mods| - 1];
    var own := if Wanted(m, filter) then [m] else [];
    AllGoodSplit(Advertised(mods[..|mods| - 1], filter), own);
    assert Wanted(m, filter) ==> own[0] == m;
  }

  /** The keys of the modules' capabilities. */
  lemma {:induction false} KeysOfLines(mods: seq<Module>, filter: Filter, contentId: string, key: string)
    requires Unstructured(contentId) && Lines(mods, filter, contentId).Some? && AllGood(Advertised(mods, filter))
    ensures HasKey(Lines(mods, filter, contentId).value, key) <==> SomeOwnKey(mods, filter, key)
  {
    if mods != [] {
      var n := |mods| - 1;
      var before, last := Lines(mods[..n], filter, contentId).value, LinesOf(mods[n], filter, contentId).value;
      AdvertisedSnoc(mods, filter);
      KeysOfLines(mods[..n], filter, contentId, key);
      LineKey(mods[n], filter, contentId);
      HasKeyAppend(before, last, key);
      SomeOwnKeySnoc(mods, filter, key);
    }
  }

  lemma OwnNamespacesSnoc(base: seq<string>, mods: seq<Module>, filter: Filter)
    requires mods != []
    ensures var n := |mods| - 1;
            OwnNamespaces(base, mods, filter) <==>
            && OwnNamespaces(base, mods[..n], filter)
            && (Wanted(mods[n], filter) ==> !HasKey(base, mods[n].ns) && !SomeOwnKey(mods[..n], filter, mods[n].ns))
  {
    var n := |mods| - 1;
    forall i | 0 <= i < n ensures Unhidden(base, mods[..n], filter, i) <==> Unhidden(base, mods, filter, i) {
      assert forall j :: 0 <= j < i ==> mods[..n][j] == mods[j];
    }
    assert forall i :: 0 <= i < n ==> mods[..n][i] == mods[i];
  }

  /** No module's capability is hidden if and only if every advertised module has a namespace of its own. */
  lemma {:induction false} ModulesFirstIff(base: seq<string>, mods: seq<Module>, filter: Filter, contentId: string)
    requires Unstructured(contentId) && Lines(mods, filter, contentId).Some? && AllGood(Advertised(mods, filter))
    requires NoModule(base)
    ensures ModulesFirst(base + Lines(mods, filter, contentId).value) <==> OwnNamespaces(base, mods, filter)
    decreases |mods|
  {
    if mods == [] {
      assert base + [] == base;
    } else {
      var n := |mods| - 1;
      AdvertisedSnoc(mods, filter);
      ModulesFirstIff(base, mods[..n], filter, contentId);
      OwnNamespacesSnoc(base, mods, filter);
      LastIsFirstIff(base, mods, filter, contentId);
    }
  }

  /** The step of the proof: one more module. */
  lemma LastIsFirstIff(base: seq<string>, mods: seq<Module>, filter: Filter, contentId: string)
    requires mods != [] && Unstructured(contentId) && Lines(mods, filter, contentId).Some?
    requires AllGood(Advertised(mods[..|mods| - 1], filter))
    requires Wanted(mods[|mods| - 1], filter) ==> GoodModule(mods[|mods| - 1])
    ensures var n := |mods| - 1;
            ModulesFirst(base + Lines(mods, filter, contentId).value) <==>
            && ModulesFirst(base + Lines(mods[..n], filter, contentId).value)
            && (Wanted(mods[n], filter) ==> !HasKey(base, mods[n].ns) && !SomeOwnKey(mods[..n], filter, mods[n].ns))
  {
    var n := |mods| - 1;
    var m, before := mods[n], Lines(mods[..n], filter, contentId).value;
    var last := LinesOf(m, filter, contentId).value;
    assert Lines(mods, filter, contentId).value == before + last;
    LineKey(m, filter, contentId);
    if last == [] {
      assert before + last == before;
    } else {
      var cs := base + before;
      assert base + (before + last) == cs + [last[0]];
      ModulesFirstPrefix(cs, last[0]);
      assert (cs + [last[0]])[..|cs|] == cs;
      HasKeyAppend(base, before, m.ns);
      KeysOfLines(mods[..n], filter, contentId, m.ns);
    }
  }

  /** The length of the YANG library's capability. */
  lemma LibraryLength(revision: string, contentId: string)
    ensures |LibraryText(revision, contentId)| == 63 + |revision| + |LibraryKey(revision)| + |contentId|
  {
    var f, g := Field("revision", revision), Field(LibraryKey(revision), contentId);
    assert [f, g][1..] == [g];
    assert Query([f, g]) == f.Text() + "&" + Query([g]);
    assert |CAPABILITY| == 35;
  }

  /** What is stored for the module without a test fits the buffer. */
  predicate LineStored(m: Module, filter: Filter, contentId: string) {
    && (Wanted(m, filter) ==> Stored(m))
    && (IsYangLibrary(m) && m.revision.Some? ==>
          63 + |m.revision.value| + |LibraryKey(m.revision.value)| + |contentId| < BUF_LEN)
  }

  ghost predicate AllStored(mods: seq<Module>, filter: Filter, contentId: string) {
    forall i :: 0 <= i < |mods| ==> LineStored(mods[i], filter, contentId)
  }

  ghost predicate InBuffer(lines: seq<string>) {
    forall i :: 0 <= i < |lines| ==> |lines[i]| < BUF_LEN
  }

  lemma LineStoredIff(m: Module, filter: Filter, contentId: string)
    requires LinesOf(m, filter, contentId).Some?
    ensures InBuffer(LinesOf(m, filter, contentId).value) <==> LineStored(m, filter, contentId)
  {
    var lines := LinesOf(m, filter, contentId).value;
    if Wanted(m, filter) {
      StoredIff(m);
      assert lines[0] == ModuleText(m);
    } else if IsYangLibrary(m) {
      LibraryLength(m.revision.value, contentId);
      assert lines[0] == LibraryText(m.revision.value, contentId);
    }
  }

  lemma InBufferAppend(a: seq<string>, b: seq<string>)
    ensures InBuffer(a + b) <==> InBuffer(a) && InBuffer(b)
  {
    assert forall i :: 0 <= i < |a| ==> a[i] == (a + b)[i];
    assert forall i :: 0 <= i < |b| ==> b[i] == (a + b)[|a| + i];
  }

  lemma AllStoredSnoc(mods: seq<Module>, filter: Filter, contentId: string)
    requires mods != []
    ensures AllStored(mods, filter, contentId) <==>
            AllStored(mods[..|mods| - 1], filter, contentId) && LineStored(mods[|mods| - 1], filter, contentId)
  {
    assert forall i :: 0 <= i < |mods| - 1 ==> mods[..|mods| - 1][i] == mods[i];
  }

  /** Every capability text stays inside the buffer if and only if what is stored without a test does. */
  lemma {:induction false} StoredLinesIff(mods: seq<Module>, filter: Filter, contentId: string)
    requires Lines(mods, filter, contentId).Some?
    ensures InBuffer(Lines(mods, filter, contentId).value) <==> AllStored(mods, filter, contentId)
  {
    if mods != [] {
      var n := |mods| - 1;
      StoredLinesIff(mods[..n], filter, contentId);
      LineStoredIff(mods[n], filter, contentId);
      InBufferAppend(Lines(mods[..n], filter, contentId).value, LinesOf(mods[n], filter, contentId).value);
      AllStoredSnoc(mods, filter, contentId);
    }
  }

  /** A module whose features fit but whose deviations do not: the key for them is stored without a test. */
  function Overlong(): Module {
    Module("u", "m", None, false, [Feature(seq(4074, _ => 'f'), true)], ["d"])
  }

  lemma FittingIsNotStored()
    ensures GoodModule(Overlong()) && Fits(Overlong())
    ensures !Stored(Overlong()) && |ModuleText(Overlong())| >= BUF_LEN
  {
    var m := Overlong();
    var name := m.features[0].name;
    EnabledOne(m.features[0]);
    assert |name| == 4074 && Join([name]) == name;
    assert |Head(m)| == 10;
    assert name[0] == 'f' && Plain(name) && Plain("d") && Plain("m");
    ContainsNot("u", "module=", 6);
    ShownAllIff(20, [name], true);
    StoredIff(m);
  }

  /** The module round trip: every text stays inside the buffer, and from the de-duplicated list a client learns of every
      advertised module, in order, its name, its revision and all its enabled features, if and only if every advertised
      module has a namespace of its own, its features fit the buffer, and so does what is stored without a test. */
  lemma RoundTripIff(base: seq<string>, mods: seq<Module>, filter: Filter, contentId: string)
    requires Unstructured(contentId) && Lines(mods, filter, contentId).Some? && AllGood(Advertised(mods, filter))
    requires NoModule(base)
    ensures var lines := Lines(mods, filter, contentId).value;
            InBuffer(lines) && ParseAll(Firsts(base + lines)) == FullInfos(Advertised(mods, filter)) <==>
            && OwnNamespaces(base, mods, filter)
            && AllFit(Advertised(mods, filter)) && AllStored(mods, filter, contentId)
  {
    KnownIff(base, mods, filter, contentId);
    ModulesFirstIff(base, mods, filter, contentId);
    InfosAreFullIff(Advertised(mods, filter));
    StoredLinesIff(mods, filter, contentId);
  }

  /** The same for the list of a server and through the <hello> on the wire: whatever follows it, the client chooses
      NETCONF 1.1 and learns its session-id and all about the advertised modules under the same condition on the modules
      and a session-id in range. */
  lemma WireRoundTripIff(others: seq<string>, mods: seq<Module>, filter: Filter, contentId: string,
                         cs: seq<string>, sid: nat, chunks: seq<string>, rest: string)
    requires Unstructured(contentId) && Lines(mods, filter, contentId).Some? && AllGood(Advertised(mods, filter))
    requires NoSpace(contentId) && AllSpaceless(Advertised(mods, filter))
    requires NoModule(others) && AllTight(others)
    requires cs == [BASE_10, BASE_11] + others + Lines(mods, filter, contentId).value
    requires ValidChunks(chunks) && Concat(chunks) == Texts(HelloParts(Firsts(cs), Some(sid)))
    ensures && InBuffer(Lines(mods, filter, contentId).value)
            && Learned(Frame(V10, chunks) + rest) == Some(Lesson(V11, sid, FullInfos(Advertised(mods, filter)))) <==>
            && OwnNamespaces([BASE_10, BASE_11] + others, mods, filter)
            && AllFit(Advertised(mods, filter)) && AllStored(mods, filter, contentId)
            && 1 <= sid <= UINT32_MAX
  {
    BaseStays(others, Lines(mods, filter, contentId).value);
    BaseIsNoModule(others);
    TightServer(others, mods, filter, contentId);
    RoundTripIff([BASE_10, BASE_11] + others, mods, filter, contentId);
    LearnedFromHello(Firsts(cs), sid, chunks, rest, FullInfos(Advertised(mods, filter)));
  }
}
