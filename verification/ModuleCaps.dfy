/** Capabilities of YANG modules (section 5.6.4 of RFC 6020): printing in nc_server_get_cpblts_version()
    (src/session.c:1177-1272) and parsing in build_module_info_cpblts() (src/session_client.c:1003-1070). */
module ModuleCaps {
  import opened Bytes

  const BUF_LEN := 4096

  /** Text with none of the characters that structure a capability. */
  predicate Plain(s: string) {
    '&' !in s && '=' !in s && ',' !in s
  }

  predicate AllPlain(names: seq<string>) {
    forall i :: 0 <= i < |names| ==> Plain(names[i])
  }

  /** A key and its value in the query part of a capability. */
  datatype Field = Field(key: string, value: string) {
    function Text(): string {
      key + "=" + value
    }

    predicate Good() {
      '&' !in key && '=' !in key && '&' !in value && '=' !in value
    }
  }

  function Query(fields: seq<Field>): string
    requires fields != []
  {
    if |fields| == 1 then fields[0].Text()
    else fields[0].Text() + "&" + Query(fields[1..])
  }

  /** The text up to the first '&' or the end. */
  function UpToAmp(s: string): string {
    if s == "" || s[0] == '&' then "" else [s[0]] + UpToAmp(s[1..])
  }

  /** strstr(s, key "=") and the value that follows. */
  function Lookup(s: string, key: string): Option<string> {
    var p := Find(s, key + "=", 0);
    if p.None? then None else Some(UpToAmp(s[p.value + |key| + 1..]))
  }

  lemma {:induction false} UpToAmpExact(v: string, rest: string)
    requires '&' !in v && (rest == "" || rest[0] == '&')
    ensures UpToAmp(v + rest) == v
  {
    if v == "" {
      assert v + rest == rest;
    } else {
      assert (v + rest)[1..] == v[1..] + rest;
      UpToAmpExact(v[1..], rest);
    }
  }

  /** A key that does not end the key of the field `f` does not occur in the text of the field. */
  lemma NoKeyBefore(f: Field, rest: string, key: string, j: nat)
    requires f.Good() && '&' !in key && '=' !in key && !EndsWith(f.key, key)
    requires rest == "" || rest[0] == '&'
    requires j <= |f.Text()|
    ensures !IsAt(f.Text() + rest, key + "=", j)
  {
    var s, pat := f.Text() + rest, key + "=";
    var e, a := j + |key|, |f.Text()|;
    IsAtPointwise(s, pat, j);
    assert pat[|key|] == '=';
    if j + |pat| <= |s| {
      if e < |f.key| {
        assert s[e] == f.key[e];
      } else if e == |f.key| {
        assert s[..e] == f.key;
        assert s[j..e] == s[..e][j..] == f.key[|f.key| - |key|..];
        assert s[j..j + |pat|][..|key|] == s[j..e];
        assert pat[..|key|] == key;
      } else if e < a {
        assert s[e] == f.value[e - |f.key| - 1];
      } else if e == a {
        assert s[e] == '&';
      } else {
        assert s[a] == '&' && pat[a - j] == key[a - j];
      }
    }
  }

  lemma IsAtShift(head: string, s: string, pat: string, j: nat)
    ensures IsAt(head + s, pat, |head| + j) <==> IsAt(s, pat, j)
  {
  }

  lemma FindShift(head: string, s: string, pat: string)
    requires forall j :: 0 <= j < |head| ==> !IsAt(head + s, pat, j)
    ensures match Find(s, pat, 0)
            case None => Find(head + s, pat, 0).None?
            case Some(p) => Find(head + s, pat, 0) == Some(|head| + p)
  {
    var t := head + s;
    forall j | |head| <= j ensures IsAt(t, pat, j) <==> IsAt(s, pat, j - |head|) {
      IsAtShift(head, s, pat, j - |head|);
    }
    var q := Find(t, pat, 0);
    if q.Some? {
      assert IsAt(s, pat, q.value - |head|);
    }
    if Find(s, pat, 0).Some? {
      assert IsAt(t, pat, |head| + Find(s, pat, 0).value);
    }
  }

  lemma LookupShift(head: string, s: string, key: string)
    requires forall j :: 0 <= j < |head| ==> !IsAt(head + s, key + "=", j)
    ensures Lookup(head + s, key) == Lookup(s, key)
  {
    FindShift(head, s, key + "=");
    var p := Find(s, key + "=", 0);
    if p.Some? {
      var n := p.value + |key| + 1;
      assert (head + s)[|head| + n..] == s[n..];
    }
  }

  /** The value of the first field with a key. */
  function ValueOf(fields: seq<Field>, key: string): Option<string> {
    if fields == [] then None
    else if fields[0].key == key then Some(fields[0].value)
    else ValueOf(fields[1..], key)
  }

  /** A key that ends no other key. */
  ghost predicate Separate(fields: seq<Field>, key: string) {
    && '&' !in key && '=' !in key
    && forall i :: 0 <= i < |fields| ==> fields[i].Good() && (EndsWith(fields[i].key, key) ==> fields[i].key == key)
  }

  /** What follows the first field. */
  function Tail(fields: seq<Field>): string
    requires fields != []
  {
    if |fields| == 1 then "" else "&" + Query(fields[1..])
  }

  lemma LookupHere(f: Field, rest: string)
    requires f.Good() && (rest == "" || rest[0] == '&')
    ensures Lookup(f.Text() + rest, f.key) == Some(f.value)
  {
    var s := f.Text() + rest;
    var pat := f.key + "=";
    assert s[0..|pat|] == pat;
    assert IsAt(s, pat, 0);
    assert s[|f.key| + 1..] == f.value + rest;
    UpToAmpExact(f.value, rest);
  }

  lemma LookupLater(f: Field, rest: string, key: string)
    requires f.Good() && '&' !in key && '=' !in key && !EndsWith(f.key, key)
    ensures Lookup(f.Text() + "&" + rest, key) == Lookup(rest, key)
    ensures Lookup(f.Text(), key) == None
  {
    var head := f.Text() + "&";
    assert head + rest == f.Text() + ("&" + rest);
    forall j | 0 <= j < |head| ensures !IsAt(head + rest, key + "=", j) {
      NoKeyBefore(f, "&" + rest, key, j);
    }
    LookupShift(head, rest, key);
    forall j | 0 <= j ensures !IsAt(f.Text(), key + "=", j) {
      if j <= |f.Text()| {
        NoKeyBefore(f, "", key, j);
        assert f.Text() + "" == f.Text();
      }
    }
  }

  /** Searching for a key in a query finds the value of that key and nothing else. */
  lemma {:induction false} LookupQuery(fields: seq<Field>, key: string)
    requires fields != [] && Separate(fields, key)
    ensures Lookup(Query(fields), key) == ValueOf(fields, key)
    decreases |fields|
  {
    var f := fields[0];
    if f.key == key {
      LookupHere(f, Tail(fields));
      assert f.Text() + "" == f.Text();
      assert |fields| > 1 ==> f.Text() + "&" + Query(fields[1..]) == f.Text() + Tail(fields);
    } else {
      var rest := if |fields| == 1 then "" else Query(fields[1..]);
      LookupLater(f, rest, key);
      if |fields| > 1 {
        LookupQuery(fields[1..], key);
      } else {
        assert fields[1..] == [];
      }
    }
  }

  function Join(names: seq<string>): string {
    if names == [] then "" else if |names| == 1 then names[0] else names[0] + "," + Join(names[1..])
  }

  /** The feature loop of build_module_info_cpblts(), on the value. */
  function Split(s: string): (r: seq<string>)
    ensures r != []
  {
    if s == "" then [""]
    else
      var rest := Split(s[1..]);
      if s[0] == ',' then [""] + rest else [[s[0]] + rest[0]] + rest[1..]
  }

  lemma {:induction false} SplitName(name: string, rest: string)
    requires ',' !in name
    ensures Split(name + "," + rest) == [name] + Split(rest)
    ensures Split(name) == [name]
  {
    if name == "" {
      assert name + "," + rest == "," + rest;
      assert ("," + rest)[1..] == rest;
    } else {
      SplitName(name[1..], rest);
      assert (name + "," + rest)[1..] == name[1..] + "," + rest;
      assert [name[0]] + name[1..] == name;
    }
  }

  lemma {:induction false} SplitJoin(names: seq<string>)
    requires AllPlain(names) && names != []
    ensures Split(Join(names)) == names
  {
    if |names| == 1 {
      SplitName(names[0], "");
    } else {
      SplitName(names[0], Join(names[1..]));
      SplitJoin(names[1..]);
      assert names == [names[0]] + names[1..];
    }
  }

  datatype Feature = Feature(name: string, enabled: bool)

  datatype Module = Module(
    ns: string,
    name: string,
    revision: Option<string>,
    yang11: bool,              // written in YANG 1.1
    features: seq<Feature>,
    deviations: seq<string>)   // names of the modules that deviate it

  /** The names of the enabled features, in order. */
  function Enabled(features: seq<Feature>): seq<string> {
    if features == [] then []
    else (if features[0].enabled then [features[0].name] else []) + Enabled(features[1..])
  }

  lemma EnabledOne(f: Feature)
    ensures Enabled([f]) == if f.enabled then [f.name] else []
  {
    assert [f][1..] == [];
    assert Enabled([f]) == (if f.enabled then [f.name] else []) + Enabled([]);
  }

  lemma {:induction false} EnabledAppend(a: seq<Feature>, b: seq<Feature>)
    ensures Enabled(a + b) == Enabled(a) + Enabled(b)
  {
    if a == [] {
      assert a + b == b;
    } else {
      assert (a + b)[0] == a[0] && (a + b)[1..] == a[1..] + b;
      EnabledAppend(a[1..], b);
    }
  }

  lemma EnabledSnoc(a: seq<Feature>, f: Feature)
    ensures Enabled(a + [f]) == Enabled(a) + if f.enabled then [f.name] else []
  {
    EnabledAppend(a, [f]);
    EnabledOne(f);
  }

  /** The indices of the enabled ones among the first `n` features. */
  function EnabledAmong(features: seq<Feature>, n: nat): set<nat>
    requires n <= |features|
  {
    set j: nat | 0 <= j < n && features[j].enabled
  }

  lemma AmongNext(features: seq<Feature>, n: nat)
    requires n < |features|
    ensures |EnabledAmong(features, n + 1)| == |EnabledAmong(features, n)| + if features[n].enabled then 1 else 0
  {
    var before := EnabledAmong(features, n);
    assert EnabledAmong(features, n + 1) == before + if features[n].enabled then {n} else {};
  }

  lemma {:induction false} EnabledCount(features: seq<Feature>, n: nat)
    requires n <= |features|
    ensures |Enabled(features[..n])| == |EnabledAmong(features, n)|
  {
    if n > 0 {
      EnabledCount(features, n - 1);
      assert features[..n] == features[..n - 1] + [features[n - 1]];
      EnabledSnoc(features[..n - 1], features[n - 1]);
      AmongNext(features, n - 1);
    } else {
      assert EnabledAmong(features, n) == {};
    }
  }

  /** There are as many names as enabled features, and each enabled feature has its name at the place given by the
      number of enabled features before it, whatever disabled ones lie between. */
  lemma EnabledIs(features: seq<Feature>, i: nat)
    requires i < |features|
    ensures |Enabled(features)| == |EnabledAmong(features, |features|)|
    ensures var place := |EnabledAmong(features, i)|;
            features[i].enabled ==> place < |Enabled(features)| && Enabled(features)[place] == features[i].name
  {
    var f, rest := features[i], features[i + 1..];
    assert features == features[..i] + [f] + rest && features[..|features|] == features;
    EnabledAppend(features[..i] + [f], rest);
    EnabledSnoc(features[..i], f);
    EnabledCount(features, i);
    EnabledCount(features, |features|);
  }

  /** The names that are appended to a text of length `len` before one no longer fits the buffer. */
  function Shown(len: nat, names: seq<string>, first: bool): (shown: seq<string>)
    ensures shown <= names
    decreases |names|
  {
    if names == [] || len + 1 + |names[0]| >= BUF_LEN then []
    else [names[0]] + Shown(len + |names[0]| + (if first then 0 else 1), names[1..], false)
  }

  /** "&key=" and as many of the names as fit, or nothing when there are none. */
  function NameList(len: nat, key: string, names: seq<string>): string {
    if names == [] then "" else "&" + key + "=" + Join(Shown(len + |key| + 2, names, true))
  }

  function Head(m: Module): string {
    m.ns + "?module=" + m.name + if m.revision.Some? then "&revision=" + m.revision.value else ""
  }

  function HeadAndFeatures(m: Module): string {
    Head(m) + NameList(|Head(m)|, "features", Enabled(m.features))
  }

  /** The capability of a module. */
  function ModuleText(m: Module): string {
    HeadAndFeatures(m) + NameList(|HeadAndFeatures(m)|, "deviations", m.deviations)
  }

  /** The text after the loops that append names (src/session.c:1237-1248 and src/session.c:1255-1268). */
  function AppendFrom(text: string, names: seq<string>, first: bool): string
    decreases |names|
  {
    if names == [] || |text| + 1 + |names[0]| >= BUF_LEN then text
    else AppendFrom(text + (if first then "" else ",") + names[0], names[1..], false)
  }

  /** What is appended behind earlier names: each name with a comma before it. */
  function Followed(names: seq<string>): string {
    if names == [] then "" else "," + names[0] + Followed(names[1..])
  }

  lemma {:induction false} JoinIsFollowed(names: seq<string>)
    requires names != []
    ensures Join(names) == names[0] + Followed(names[1..])
  {
    if |names| > 1 {
      JoinIsFollowed(names[1..]);
      var rest := Followed(names[1..][1..]);
      assert names[0] + "," + (names[1] + rest) == names[0] + ("," + names[1] + rest);
    } else {
      assert names[1..] == [];
    }
  }

  lemma {:induction false} AppendFollowed(text: string, names: seq<string>)
    ensures AppendFrom(text, names, false) == text + Followed(Shown(|text|, names, false))
    decreases |names|
  {
    if names != [] && |text| + 1 + |names[0]| < BUF_LEN {
      var text' := text + "," + names[0];
      AppendFollowed(text', names[1..]);
      var rest := Shown(|text'|, names[1..], false);
      assert ([names[0]] + rest)[1..] == rest;
      Assoc(text, "," + names[0], Followed(rest));
      Assoc(text, ",", names[0]);
    }
  }

  /** Appending gives the shown names with commas between them. */
  lemma AppendIsJoin(text: string, names: seq<string>)
    ensures AppendFrom(text, names, true) == text + Join(Shown(|text|, names, true))
  {
    if names != [] && |text| + 1 + |names[0]| < BUF_LEN {
      var text' := text + names[0];
      assert text + "" + names[0] == text';
      AppendFollowed(text', names[1..]);
      var rest := Shown(|text'|, names[1..], false);
      JoinIsFollowed([names[0]] + rest);
      assert ([names[0]] + rest)[1..] == rest;
      Assoc(text, names[0], Followed(rest));
    }
  }

  /** `stored` are the contents of the buffer, one after the other, on the way to `text`. */
  ghost predicate OnTheWay(stored: seq<string>, text: string) {
    forall i :: 0 <= i < |stored| ==> stored[i] <= text
  }

  method AppendShown(start: string, names: seq<string>) returns (text: string, ghost stored: seq<string>)
    ensures text == start + Join(Shown(|start|, names, true)) && OnTheWay(stored, text)
  {
    AppendIsJoin(start, names);
    text, stored := start, [];
    assert names[0..] == names;
    for i := 0 to |names|
      invariant AppendFrom(start, names, true) == AppendFrom(text, names[i..], i == 0) && OnTheWay(stored, text)
    {
      assert names[i..][1..] == names[i + 1..];
      if |text| + 1 + |names[i]| >= BUF_LEN {
        return;
      }
      text := text + (if i > 0 then "," else "") + names[i];
      stored := stored + [text];
    }
  }

  method AppendNames(str: string, key: string, names: seq<string>) returns (text: string, ghost stored: seq<string>)
    ensures text == str + NameList(|str|, key, names) && OnTheWay(stored, text) && str <= text
  {
    if names == [] {
      assert str + "" == str;
      return str, [];
    }
    var start := str + "&" + key + "=";
    text, stored := AppendShown(start, names);
    stored := [start] + stored;
    Assoc(str, "&" + key + "=", Join(Shown(|str| + |key| + 2, names, true)));
    assert start == str + ("&" + key + "=");
  }

  /** The loop over the features of a module (src/session.c:1226-1249): disabled ones are skipped, the key is stored
      before the first enabled one, and the loop ends at the first name that does not fit. */
  method AppendFeatures(str: string, features: seq<Feature>) returns (text: string, ghost stored: seq<string>)
    ensures text == str + NameList(|str|, "features", Enabled(features)) && OnTheWay(stored, text) && str <= text
  {
    ghost var start, names := str + "&" + "features" + "=", Enabled(features);
    assert start == str + "&features=";
    if names != [] { NameListAppends(str, "features", names); } else { assert str + "" == str; }
    text, stored := str, [];
    var count := 0;
    assert features[0..] == features;
    for i := 0 to |features|
      invariant count == 0 ==> text == str && stored == [] && Enabled(features[i..]) == names
      invariant count > 0 ==>
                  && names != [] && start <= text
                  && AppendFrom(start, names, true) == AppendFrom(text, Enabled(features[i..]), false)
      invariant OnTheWay(stored, text)
    {
      EnabledNext(features, i);
      if !features[i].enabled {
        continue;
      }
      if count == 0 {
        text := text + "&features=";
        stored := [text];
      }
      var name := features[i].name;
      assert AppendFrom(start, names, true) == AppendFrom(text, Enabled(features[i..]), count == 0);
      if |text| + 1 + |name| >= BUF_LEN {
        return;
      }
      text := text + (if count > 0 then "," else "") + name;
      stored := stored + [text];
      count := count + 1;
    }
  }

  lemma EnabledNext(features: seq<Feature>, i: nat)
    requires i < |features|
    ensures var rest := Enabled(features[i + 1..]);
            && (!features[i].enabled ==> Enabled(features[i..]) == rest)
            && (features[i].enabled ==> Enabled(features[i..]) == [features[i].name] + rest
                                        && Enabled(features[i..])[1..] == rest)
  {
    assert features[i..][0] == features[i] && features[i..][1..] == features[i + 1..];
  }

  lemma NameListAppends(str: string, key: string, names: seq<string>)
    requires names != []
    ensures str + NameList(|str|, key, names) == AppendFrom(str + "&" + key + "=", names, true)
  {
    var start := str + "&" + key + "=";
    AppendIsJoin(start, names);
    assert start == str + ("&" + key + "=");
    Assoc(str, "&" + key + "=", Join(Shown(|str| + |key| + 2, names, true)));
  }

  lemma OnTheWayFurther(stored: seq<string>, text: string, text': string)
    requires OnTheWay(stored, text) && text <= text'
    ensures OnTheWay(stored, text')
  {
  }

  /** The capability text of one module (src/session.c:1223-1269). `stored` are all the contents the buffer has had;
      they stay inside it if and only if the text does, that is if the module is `Stored`. */
  method PrintModule(m: Module) returns (str: string, ghost stored: seq<string>)
    ensures str == ModuleText(m)
    ensures (forall i :: 0 <= i < |stored| ==> |stored[i]| < BUF_LEN) <==> Stored(m)
  {
    str := Head(m);
    ghost var more;
    str, more := AppendFeatures(str, m.features);
    stored := [Head(m)] + more;
    assert OnTheWay(stored, str);
    ghost var before := str;
    str, more := AppendNames(str, "deviations", m.deviations);
    OnTheWayFurther(stored, before, str);
    stored := stored + more + [str];
    StoredIff(m);
    assert stored[|stored| - 1] == str;
  }

  /** The first text, the key of the features and the key of the deviations, which are stored without a test, fit. */
  predicate Stored(m: Module) {
    && |Head(m)| < BUF_LEN
    && (Enabled(m.features) != [] ==> |Head(m)| + 10 < BUF_LEN)
    && (m.deviations != [] ==> |HeadAndFeatures(m)| + 12 < BUF_LEN)
  }

  lemma {:induction false} FollowedFits(len: nat, names: seq<string>)
    requires len < BUF_LEN
    ensures len + |Followed(Shown(len, names, false))| < BUF_LEN
    decreases |names|
  {
    if names != [] && len + 1 + |names[0]| < BUF_LEN {
      var rest := Shown(len + |names[0]| + 1, names[1..], false);
      FollowedFits(len + |names[0]| + 1, names[1..]);
      assert ([names[0]] + rest)[1..] == rest;
    }
  }

  /** The names that are shown stay inside the buffer if it was not exceeded before. */
  lemma ShownFits(len: nat, names: seq<string>)
    requires len < BUF_LEN
    ensures len + |Join(Shown(len, names, true))| < BUF_LEN
  {
    if names != [] && len + 1 + |names[0]| < BUF_LEN {
      var rest := Shown(len + |names[0]|, names[1..], false);
      FollowedFits(len + |names[0]|, names[1..]);
      JoinIsFollowed([names[0]] + rest);
      assert ([names[0]] + rest)[1..] == rest;
    }
  }

  lemma NameListFitsIff(len: nat, key: string, names: seq<string>)
    ensures len + |NameList(len, key, names)| < BUF_LEN <==>
            len < BUF_LEN && (names != [] ==> len + |key| + 2 < BUF_LEN)
  {
    if names != [] && len + |key| + 2 < BUF_LEN {
      ShownFits(len + |key| + 2, names);
    }
  }

  /** The buffer holds the whole text if and only if what is stored without a test fits. */
  lemma StoredIff(m: Module)
    ensures |ModuleText(m)| < BUF_LEN <==> Stored(m)
  {
    NameListFitsIff(|Head(m)|, "features", Enabled(m.features));
    NameListFitsIff(|HeadAndFeatures(m)|, "deviations", m.deviations);
  }

  /** All names are shown if and only if the text fits; a single name needs one byte more than it takes. */
  lemma {:induction false} ShownAllIff(len: nat, names: seq<string>, first: bool)
    ensures Shown(len, names, first) == names <==>
            || names == []
            || len + |Join(names)| + (if first && |names| > 1 then 0 else 1) < BUF_LEN
    decreases |names|
  {
    if names != [] {
      var len' := len + |names[0]| + if first then 0 else 1;
      ShownAllIff(len', names[1..], false);
      assert names == [names[0]] + names[1..];
      if |names| == 1 { assert names[1..] == []; }
    }
  }

  /** struct module_info as far as capabilities give it; `features` is None where there is no list. */
  datatype ModuleInfo = ModuleInfo(name: string, revision: Option<string>, features: Option<seq<string>>)

  /** One turn of build_module_info_cpblts(); `None` for a capability without "module=". */
  function ParseModule(c: string): Option<ModuleInfo> {
    var p := Find(c, "module=", 0);
    if p.None? then None
    else
      var q := c[p.value..];
      var features := Lookup(q, "features");
      Some(ModuleInfo(UpToAmp(q[7..]), Lookup(q, "revision"),
                      if features.None? then None else Some(Split(features.value))))
  }

  function NameField(len: nat, key: string, names: seq<string>): seq<Field> {
    if names == [] then [] else [Field(key, Join(Shown(len + |key| + 2, names, true)))]
  }

  function HeadFields(m: Module): seq<Field> {
    [Field("module", m.name)] + if m.revision.Some? then [Field("revision", m.revision.value)] else []
  }

  /** The query part of a module's capability. */
  function Fields(m: Module): (fields: seq<Field>)
    ensures fields != [] && fields[0] == Field("module", m.name)
  {
    HeadFields(m)
    + NameField(|Head(m)|, "features", Enabled(m.features))
    + NameField(|HeadAndFeatures(m)|, "deviations", m.deviations)
  }

  lemma {:induction false} QuerySnoc(fields: seq<Field>, f: Field)
    requires fields != []
    ensures Query(fields + [f]) == Query(fields) + "&" + f.Text()
  {
    if |fields| == 1 {
      assert fields + [f] == [fields[0], f];
      assert [fields[0], f][1..] == [f];
    } else {
      assert (fields + [f])[0] == fields[0] && (fields + [f])[1..] == fields[1..] + [f];
      QuerySnoc(fields[1..], f);
      assert fields[0].Text() + "&" + (Query(fields[1..]) + "&" + f.Text())
          == fields[0].Text() + "&" + Query(fields[1..]) + "&" + f.Text();
    }
  }

  lemma QueryNames(fields: seq<Field>, len: nat, key: string, names: seq<string>)
    requires fields != []
    ensures Query(fields + NameField(len, key, names)) == Query(fields) + NameList(len, key, names)
  {
    if names == [] {
      assert fields + [] == fields && Query(fields) + "" == Query(fields);
    } else {
      var f := NameField(len, key, names)[0];
      QuerySnoc(fields, f);
      Assoc(Query(fields), "&", f.Text());
      Assoc("&" + key, "=", f.value);
      assert "&" + f.Text() == NameList(len, key, names);
    }
  }

  lemma HeadGroups(ns: string, name: string, rest: string)
    ensures ns + "?module=" + name + rest == ns + "?" + ("module=" + name + rest)
  {
    assert ns + "?module=" == ns + "?" + "module=";
  }

  lemma HeadIsQuery(m: Module)
    ensures Head(m) == m.ns + "?" + Query(HeadFields(m))
  {
    var f := Field("module", m.name);
    var rest := if m.revision.Some? then "&revision=" + m.revision.value else "";
    HeadGroups(m.ns, m.name, rest);
    assert Query([f]) == "module=" + m.name;
    if m.revision.Some? {
      var g := Field("revision", m.revision.value);
      QuerySnoc([f], g);
      assert "&" + g.Text() == rest;
      Assoc(Query([f]), "&", g.Text());
    } else {
      assert [f] + [] == [f] && Query([f]) + "" == Query([f]);
    }
  }

  /** The printed text is the namespace, a question mark and the query. */
  lemma TextIsQuery(m: Module)
    ensures ModuleText(m) == m.ns + "?" + Query(Fields(m))
  {
    var f1 := HeadFields(m);
    var f2 := f1 + NameField(|Head(m)|, "features", Enabled(m.features));
    HeadIsQuery(m);
    QueryNames(f1, |Head(m)|, "features", Enabled(m.features));
    QueryNames(f2, |HeadAndFeatures(m)|, "deviations", m.deviations);
    Assoc(m.ns + "?", Query(f1), NameList(|Head(m)|, "features", Enabled(m.features)));
    Assoc(m.ns + "?", Query(f2), NameList(|HeadAndFeatures(m)|, "deviations", m.deviations));
  }

  /** A namespace that is not mistaken for a query, and identifiers without separators. */
  ghost predicate GoodModule(m: Module) {
    && '?' !in m.ns && !Contains(m.ns, "module=")
    && Plain(m.name) && (m.revision.Some? ==> Plain(m.revision.value))
    && AllPlain(Enabled(m.features)) && "" !in Enabled(m.features)
    && AllPlain(m.deviations)
  }

  lemma {:induction false} JoinPlain(names: seq<string>)
    requires AllPlain(names)
    ensures '&' !in Join(names) && '=' !in Join(names)
  {
    if |names| > 1 {
      JoinPlain(names[1..]);
    }
  }

  lemma NameFieldGood(len: nat, key: string, names: seq<string>)
    requires AllPlain(names) && '&' !in key && '=' !in key
    ensures forall i :: 0 <= i < |NameField(len, key, names)| ==> NameField(len, key, names)[i].Good()
  {
    JoinPlain(Shown(len + |key| + 2, names, true));
  }

  lemma Suffixes()
    ensures !EndsWith("module", "revision") && !EndsWith("module", "features")
    ensures !EndsWith("revision", "features") && !EndsWith("features", "revision")
    ensures !EndsWith("deviations", "revision") && !EndsWith("deviations", "features")
  {
  }

  predicate KnownKey(key: string) {
    key == "module" || key == "revision" || key == "features" || key == "deviations"
  }

  predicate GoodFields(fields: seq<Field>) {
    forall i :: 0 <= i < |fields| ==> fields[i].Good() && KnownKey(fields[i].key)
  }

  lemma GoodFieldsAppend(a: seq<Field>, b: seq<Field>)
    requires GoodFields(a) && GoodFields(b)
    ensures GoodFields(a + b)
  {
  }

  lemma GoodNames(len: nat, key: string, names: seq<string>)
    requires AllPlain(names) && (key == "features" || key == "deviations")
    ensures GoodFields(NameField(len, key, names))
  {
    NameFieldGood(len, key, names);
  }

  lemma FieldsGood(m: Module)
    requires GoodModule(m)
    ensures GoodFields(Fields(m))
  {
    var a := HeadFields(m);
    var b, c := NameField(|Head(m)|, "features", Enabled(m.features)),
                NameField(|HeadAndFeatures(m)|, "deviations", m.deviations);
    assert GoodFields(a);
    GoodNames(|Head(m)|, "features", Enabled(m.features));
    GoodNames(|HeadAndFeatures(m)|, "deviations", m.deviations);
    GoodFieldsAppend(a, b);
    GoodFieldsAppend(a + b, c);
  }

  lemma FieldsSeparate(m: Module, key: string)
    requires GoodModule(m) && (key == "revision" || key == "features")
    ensures Separate(Fields(m), key)
  {
    FieldsGood(m);
    Suffixes();
  }

  lemma ValueOfAppend(a: seq<Field>, b: seq<Field>, key: string)
    ensures ValueOf(a + b, key) == if ValueOf(a, key).Some? then ValueOf(a, key) else ValueOf(b, key)
  {
    if a == [] {
      assert a + b == b;
    } else {
      assert (a + b)[1..] == a[1..] + b;
      ValueOfAppend(a[1..], b, key);
    }
  }

  /** What the fields of a module say about the revision and the features. */
  lemma FieldValues(m: Module)
    ensures ValueOf(Fields(m), "revision") == m.revision
    ensures ValueOf(Fields(m), "features") ==
            if Enabled(m.features) == [] then None
            else Some(Join(Shown(|Head(m)| + 10, Enabled(m.features), true)))
  {
    var a := [Field("module", m.name)];
    var b := if m.revision.Some? then [Field("revision", m.revision.value)] else [];
    var c := NameField(|Head(m)|, "features", Enabled(m.features));
    var d := NameField(|HeadAndFeatures(m)|, "deviations", m.deviations);
    assert Fields(m) == a + b + c + d;
    assert a[1..] == [] && (b != [] ==> b[1..] == []) && (c != [] ==> c[1..] == []) && (d != [] ==> d[1..] == []);
    ValueOfAppend(a, b, "revision");
    ValueOfAppend(a + b, c, "revision");
    ValueOfAppend(a + b + c, d, "revision");
    ValueOfAppend(a, b, "features");
    ValueOfAppend(a + b, c, "features");
    ValueOfAppend(a + b + c, d, "features");
  }

  /** What a client learns about a module: the features that fitted, a single empty one when none did. */
  function InfoOf(m: Module): ModuleInfo {
    var enabled := Enabled(m.features);
    var shown := Shown(|Head(m)| + 10, enabled, true);
    ModuleInfo(m.name, m.revision,
               if enabled == [] then None else Some(if shown == [] then [""] else shown))
  }

  /** A pattern the query starts with first occurs there. */
  lemma QueryStart(ns: string, query: string, pat: string)
    requires pat != "" && '?' !in pat && !Contains(ns, pat) && StartsWith(query, pat)
    ensures Find(ns + "?" + query, pat, 0) == Some(|ns| + 1)
  {
    assert query[0..|pat|] == query[..|pat|];
    assert Find(query, pat, 0) == Some(0);
    FindPast(ns, query, pat);
  }

  /** A pattern without '?' that is not in the namespace is found in the query or not at all. */
  lemma FindPast(ns: string, query: string, pat: string)
    requires pat != "" && '?' !in pat && !Contains(ns, pat)
    ensures match Find(query, pat, 0)
            case None => Find(ns + "?" + query, pat, 0).None?
            case Some(p) => Find(ns + "?" + query, pat, 0) == Some(|ns| + 1 + p)
  {
    forall j | 0 <= j < |ns + "?"| ensures !IsAt(ns + "?" + query, pat, j) {
      NotAcross(ns, query, pat, j);
    }
    FindShift(ns + "?", query, pat);
  }

  /** A pattern without '?' does not reach across one. */
  lemma NotAcross(ns: string, query: string, pat: string, j: nat)
    requires pat != "" && '?' !in pat && !Contains(ns, pat) && j <= |ns|
    ensures !IsAt(ns + "?" + query, pat, j)
  {
    var s := ns + "?" + query;
    if j + |pat| <= |ns| {
      assert s[j..j + |pat|] == ns[j..j + |pat|];
      assert !IsAt(ns, pat, j);
    } else {
      IsAtPointwise(s, pat, j);
      assert s[|ns|] == '?';
      assert pat[|ns| - j] != '?';
      assert s[j + (|ns| - j)] == '?';
    }
  }

  lemma QueryName(fields: seq<Field>)
    requires fields != [] && fields[0].key == "module" && '&' !in fields[0].value
    ensures StartsWith(Query(fields), "module=") && UpToAmp(Query(fields)[7..]) == fields[0].value
  {
    var f, tail := fields[0], Tail(fields);
    QueryIsTextAndTail(fields);
    assert f.Text() == "module=" + f.value;
    NameFirst("module=", f.value, tail);
    UpToAmpExact(f.value, tail);
  }

  lemma QueryIsTextAndTail(fields: seq<Field>)
    requires fields != []
    ensures Query(fields) == fields[0].Text() + Tail(fields)
  {
    var text := fields[0].Text();
    assert text + "" == text;
    if |fields| > 1 {
      Assoc(text, "&", Query(fields[1..]));
    }
  }

  lemma NameFirst(key: string, value: string, tail: string)
    ensures StartsWith(key + value + tail, key) && (key + value + tail)[|key|..] == value + tail
  {
  }

  /** What the fields of a query say about a module. */
  function InfoFrom(fields: seq<Field>): ModuleInfo
    requires fields != []
  {
    var features := ValueOf(fields, "features");
    ModuleInfo(fields[0].value, ValueOf(fields, "revision"),
               if features.None? then None else Some(Split(features.value)))
  }

  /** Parsing any namespace and query that starts with a module name. */
  lemma ParseQuery(c: string, ns: string, fields: seq<Field>)
    requires !Contains(ns, "module=") && fields != [] && fields[0].key == "module"
    requires Separate(fields, "revision") && Separate(fields, "features")
    requires c == ns + "?" + Query(fields)
    ensures ParseModule(c) == Some(InfoFrom(fields))
  {
    var query := Query(fields);
    QueryName(fields);
    QueryStart(ns, query, "module=");
    assert c[|ns| + 1..] == query;
    LookupQuery(fields, "revision");
    LookupQuery(fields, "features");
  }

  lemma InfoFromFields(m: Module)
    requires GoodModule(m)
    ensures InfoFrom(Fields(m)) == InfoOf(m)
  {
    FieldValues(m);
    SplitShown(Shown(|Head(m)| + 10, Enabled(m.features), true), Enabled(m.features));
  }

  /** Parsing the capability of a module gives back its name, its revision and the features that fitted. */
  lemma ParseModuleText(m: Module)
    requires GoodModule(m)
    ensures ParseModule(ModuleText(m)) == Some(InfoOf(m))
  {
    var c, fields := ModuleText(m), Fields(m);
    assert c == m.ns + "?" + Query(fields) by { TextIsQuery(m); }
    assert Separate(fields, "revision") by { FieldsSeparate(m, "revision"); }
    assert Separate(fields, "features") by { FieldsSeparate(m, "features"); }
    ParseQuery(c, m.ns, fields);
    InfoFromFields(m);
  }

  lemma SplitShown(shown: seq<string>, names: seq<string>)
    requires shown <= names && AllPlain(names)
    ensures Split(Join(shown)) == if shown == [] then [""] else shown
  {
    if shown != [] {
      SplitJoin(shown);
    }
  }

  /** The features come back complete if and only if they fit the buffer. */
  lemma FeaturesCompleteIff(m: Module)
    requires GoodModule(m)
    ensures var enabled := Enabled(m.features);
            InfoOf(m).features == (if enabled == [] then None else Some(enabled)) <==>
            || enabled == []
            || |Head(m)| + 10 + |Join(enabled)| + (if |enabled| > 1 then 0 else 1) < BUF_LEN
  {
    ShownAllIff(|Head(m)| + 10, Enabled(m.features), true);
    assert [""] == Enabled(m.features) ==> "" in Enabled(m.features);
  }
}
