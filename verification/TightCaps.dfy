/** Capabilities that parse_cpblts() stores as they are, because they have no white space around them
    (src/session.c:1320-1326). */
module TightCaps {
  import opened Bytes
  import opened CapabilityList
  import opened Handshake
  import opened ModuleCaps
  import opened ModuleList
  import opened Negotiation

  predicate NoSpace(s: string) {
    forall i :: 0 <= i < |s| ==> !IsSpace(s[i])
  }

  predicate NoSpaces(names: seq<string>) {
    forall i :: 0 <= i < |names| ==> NoSpace(names[i])
  }

  /** Not empty, and no white space at either end. */
  predicate TightCap(c: string) {
    c != "" && !IsSpace(c[0]) && !IsSpace(c[|c| - 1])
  }

  ghost predicate AllTight(cs: seq<string>) {
    forall i :: 0 <= i < |cs| ==> TightCap(cs[i])
  }

  /** Identifiers without white space, and a namespace that does not begin with any. */
  ghost predicate Spaceless(m: Module) {
    && (m.ns == "" || !IsSpace(m.ns[0]))
    && NoSpace(m.name) && (m.revision.Some? ==> NoSpace(m.revision.value))
    && NoSpaces(Enabled(m.features)) && NoSpaces(m.deviations)
  }

  ghost predicate AllSpaceless(mods: seq<Module>) {
    forall i :: 0 <= i < |mods| ==> Spaceless(mods[i])
  }

  lemma NoSpaceAppend(a: string, b: string)
    requires NoSpace(a) && NoSpace(b)
    ensures NoSpace(a + b)
  {
  }

  lemma {:induction false} NoSpaceJoin(names: seq<string>)
    requires NoSpaces(names)
    ensures NoSpace(Join(names))
  {
    if |names| > 1 {
      NoSpaceJoin(names[1..]);
      NoSpaceAppend(names[0], ",");
      NoSpaceAppend(names[0] + ",", Join(names[1..]));
    }
  }

  predicate NoSpaceField(f: Field) {
    NoSpace(f.key) && NoSpace(f.value)
  }

  lemma NoSpaceText(f: Field)
    requires NoSpaceField(f)
    ensures NoSpace(f.Text())
  {
    NoSpaceAppend(f.key, "=");
    NoSpaceAppend(f.key + "=", f.value);
  }

  lemma {:induction false} NoSpaceQuery(fields: seq<Field>)
    requires fields != [] && forall i :: 0 <= i < |fields| ==> NoSpaceField(fields[i])
    ensures NoSpace(Query(fields)) && Query(fields) != ""
  {
    NoSpaceText(fields[0]);
    if |fields| > 1 {
      NoSpaceQuery(fields[1..]);
      NoSpaceAppend(fields[0].Text(), "&");
      NoSpaceAppend(fields[0].Text() + "&", Query(fields[1..]));
    }
  }

  lemma NoSpaceKeys()
    ensures NoSpace("module") && NoSpace("revision") && NoSpace("features") && NoSpace("deviations")
    ensures NoSpace("content-id") && NoSpace("module-set-id")
  {
  }

  lemma NoSpaceNameField(len: nat, key: string, names: seq<string>)
    requires NoSpaces(names) && NoSpace(key)
    ensures forall i :: 0 <= i < |NameField(len, key, names)| ==> NoSpaceField(NameField(len, key, names)[i])
  {
    NoSpaceJoin(Shown(len + |key| + 2, names, true));
  }

  lemma NoSpaceFields(m: Module)
    requires Spaceless(m)
    ensures forall i :: 0 <= i < |Fields(m)| ==> NoSpaceField(Fields(m)[i])
  {
    NoSpaceKeys();
    NoSpaceNameField(|Head(m)|, "features", Enabled(m.features));
    NoSpaceNameField(|HeadAndFeatures(m)|, "deviations", m.deviations);
  }

  lemma TightQuery(ns: string, query: string)
    requires (ns == "" || !IsSpace(ns[0])) && NoSpace(query) && query != ""
    ensures TightCap(ns + "?" + query)
  {
    var c := ns + "?" + query;
    assert c[|c| - 1] == query[|query| - 1];
    assert c[0] == if ns == "" then '?' else ns[0];
  }

  /** The capability of such a module is stored as it is. */
  lemma TightModule(m: Module)
    requires Spaceless(m)
    ensures TightCap(ModuleText(m))
  {
    NoSpaceFields(m);
    NoSpaceQuery(Fields(m));
    TextIsQuery(m);
    TightQuery(m.ns, Query(Fields(m)));
  }

  lemma TightLibrary(revision: string, contentId: string)
    requires NoSpace(revision) && NoSpace(contentId)
    ensures TightCap(LibraryText(revision, contentId))
  {
    NoSpaceKeys();
    var fields := [Field("revision", revision), Field(LibraryKey(revision), contentId)];
    NoSpaceQuery(fields);
    assert LibraryUri(revision)[0] == 'u';
    TightQuery(LibraryUri(revision), Query(fields));
  }

  lemma KnownRevisions(m: Module)
    requires KnownLibrary(m)
    ensures NoSpace(m.revision.value)
  {
  }

  lemma TightLinesOf(m: Module, filter: Filter, contentId: string)
    requires LinesOf(m, filter, contentId).Some? && NoSpace(contentId) && (Wanted(m, filter) ==> Spaceless(m))
    ensures AllTight(LinesOf(m, filter, contentId).value)
  {
    if Wanted(m, filter) {
      TightModule(m);
    } else if IsYangLibrary(m) {
      KnownRevisions(m);
      TightLibrary(m.revision.value, contentId);
    }
  }

  lemma {:induction false} TightLines(mods: seq<Module>, filter: Filter, contentId: string)
    requires Lines(mods, filter, contentId).Some? && NoSpace(contentId) && AllSpaceless(Advertised(mods, filter))
    ensures AllTight(Lines(mods, filter, contentId).value)
  {
    if mods != [] {
      var n := |mods| - 1;
      var m, before := mods[n], Advertised(mods[..n], filter);
      assert forall i :: 0 <= i < |before| ==> before[i] == Advertised(mods, filter)[i];
      assert Wanted(m, filter) ==> Advertised(mods, filter)[|before|] == m;
      TightLines(mods[..n], filter, contentId);
      TightLinesOf(m, filter, contentId);
    }
  }

  lemma {:induction false} FirstsFrom(cs: seq<string>, c: string)
    requires c in Firsts(cs)
    ensures c in cs
  {
    var n := |cs| - 1;
    if c in Firsts(cs[..n]) {
      FirstsFrom(cs[..n], c);
    }
  }

  /** A list of such capabilities comes through unchanged. */
  lemma TightFirsts(cs: seq<string>)
    requires AllTight(cs)
    ensures Tight(Firsts(cs))
  {
    forall i | 0 <= i < |Firsts(cs)| ensures TightCap(Firsts(cs)[i]) && Trim(Firsts(cs)[i]) == Firsts(cs)[i] {
      FirstsFrom(cs, Firsts(cs)[i]);
      TrimSelf(Firsts(cs)[i]);
    }
  }

  lemma TightBase()
    ensures TightCap(BASE_10) && TightCap(BASE_11)
  {
  }

  /** The list of a server with tight configured capabilities and spaceless modules. */
  lemma TightServer(others: seq<string>, mods: seq<Module>, filter: Filter, contentId: string)
    requires Lines(mods, filter, contentId).Some? && NoSpace(contentId)
    requires AllTight(others) && AllSpaceless(Advertised(mods, filter))
    ensures Tight(Firsts([BASE_10, BASE_11] + others + Lines(mods, filter, contentId).value))
  {
    TightBase();
    TightLines(mods, filter, contentId);
    TightFirsts([BASE_10, BASE_11] + others + Lines(mods, filter, contentId).value);
  }
}
