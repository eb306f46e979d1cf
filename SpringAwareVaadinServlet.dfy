/** A model of the UI provider that the Spring-aware Vaadin servlet installs in every
    new Vaadin session: it maps request paths to the UI classes found in the
    application context, and brackets the creation of each UI bean with a
    "current UI identifier" slot that the custom UI scope reads.

    Three parts:
    - path extraction (`ExtractUIPath`), a pure function of the request's path-info;
    - the path registry (`UIScopeAwareUIProvider.DetectUIs`, `GetUIClass`), specified
      by the accumulator function `DetectFrom`;
    - scoped creation (`UIScopeAwareUIProvider.CreateInstance`), over a
      `CurrentInstance` object holding the one slot.
 */
module SpringAwareVaadinServlet {

  /** Java's nullable references. */
  datatype Option<T> = None | Some(value: T)

  /** A UI class, identified by its canonical name. */
  type ClassName = string

  /** What the application context tells about one bean annotated with the UI
      annotation: its name, its type, whether that type is assignable to UI, and
      the path declared in the type's annotation. */
  datatype Bean = Bean(name: string, beanType: ClassName, isUI: bool, path: string)

  // ---------------------------------------------------------------------------
  // Path extraction
  // ---------------------------------------------------------------------------

  /** Java's String.indexOf(char): the index of the first occurrence of c, or -1. */
  function IndexOf(s: string, c: char): (r: int)
    ensures -1 <= r < |s|
    ensures r == -1 <==> c !in s
    ensures 0 <= r ==> s[r] == c && forall j :: 0 <= j < r ==> s[j] != c
  {
    if s == [] then -1
    else if s[0] == c then 0
    else
      var k := IndexOf(s[1..], c);
      if k == -1 then -1 else k + 1
  }

  /** Java's s.endsWith("/"). */
  predicate EndsWithSlash(s: string) {
    |s| > 0 && s[|s| - 1] == '/'
  }

  /** Removes exactly one trailing '/', if there is one. */
  function DropTrailingSlash(s: string): string {
    if EndsWithSlash(s) then s[..|s| - 1] else s
  }

  /** The outcome of extracting a lookup key: the key, or the
      StringIndexOutOfBoundsException that substring(0, -1) throws. */
  datatype Extraction = Extracted(path: string) | SubstringOutOfBounds

  /** extractUIPathFromPathInfo, as written: a null or one-character path-info gives "";
      otherwise the path is cut at the first '!' with substring(0, indexOfBang - 1),
      which also drops the character before the '!', and then one trailing '/' is dropped. */
  function ExtractUIPath(pathInfo: Option<string>): (r: Extraction)
    ensures pathInfo.None? || |pathInfo.value| <= 1 ==> r == Extracted("")
    ensures r.SubstringOutOfBounds? <==>
              pathInfo.Some? && |pathInfo.value| > 1 && pathInfo.value[0] == '!'
    ensures r.Extracted? && pathInfo.Some? ==>
              |r.path| <= |pathInfo.value| && r.path == pathInfo.value[..|r.path|]
    ensures r.Extracted? ==> '!' !in r.path
  {
    if pathInfo.Some? && |pathInfo.value| > 1 then
      var path := pathInfo.value;
      var indexOfBang := IndexOf(path, '!');
      if indexOfBang > -1 && indexOfBang - 1 < 0 then
        SubstringOutOfBounds
      else
        var cut := if indexOfBang > -1 then path[..indexOfBang - 1] else path;
        assert indexOfBang > -1 ==> cut == path[..indexOfBang][..indexOfBang - 1];
        Extracted(DropTrailingSlash(cut))
    else
      Extracted("")
  }

  /** A path-info of more than one character with no '!' and no trailing '/' is its own key. */
  lemma ExtractKeepsPlainPath(p: string)
    requires |p| > 1 && '!' !in p && !EndsWithSlash(p)
    ensures ExtractUIPath(Some(p)) == Extracted(p)
  {
  }

  /** Without a '!', exactly one trailing '/' is dropped. */
  lemma ExtractDropsOneTrailingSlash(p: string)
    requires |p| > 1 && '!' !in p && EndsWithSlash(p)
    ensures ExtractUIPath(Some(p)) == Extracted(p[..|p| - 1])
  {
  }

  /** With the first '!' at index i > 0, the key is the prefix of length i - 1,
      less one trailing '/'. */
  lemma ExtractCutsBeforeBang(p: string, i: nat)
    requires |p| > 1 && 0 < i < |p| && p[i] == '!' && '!' !in p[..i]
    ensures ExtractUIPath(Some(p)) == Extracted(DropTrailingSlash(p[..i - 1]))
  {
  }

  /** Worked cases of the extraction without a '!'. */
  lemma ExtractSlashExamples()
    ensures ExtractUIPath(None) == Extracted("")
    ensures ExtractUIPath(Some("/")) == Extracted("")
    ensures ExtractUIPath(Some("/foo")) == Extracted("/foo")
    ensures ExtractUIPath(Some("/foo/")) == Extracted("/foo")
    ensures ExtractUIPath(Some("/foo//")) == Extracted("/foo/")
  {
    ExtractKeepsPlainPath("/foo");
    ExtractDropsOneTrailingSlash("/foo/");
    ExtractDropsOneTrailingSlash("/foo//");
  }

  /** A fragment after a '/' goes, and so does that '/'. */
  lemma ExtractFragmentAfterSlashExample()
    ensures ExtractUIPath(Some("/foo/!x")) == Extracted("/foo")
  {
    var p := "/foo/!x";
    assert p[5] == '!';
    assert p[..5] == "/foo/";
    assert '!' !in p[..5];
    ExtractCutsBeforeBang(p, 5);
    assert p[..4] == "/foo";
    assert DropTrailingSlash(p[..4]) == "/foo";
  }

  /** A '!' at index 1 leaves nothing; a '!' at index 0 makes the substring call fail. */
  lemma ExtractEarlyBangExamples()
    ensures ExtractUIPath(Some("/!x")) == Extracted("")
    ensures ExtractUIPath(Some("!x")) == SubstringOutOfBounds
  {
    var p := "/!x";
    assert p[1] == '!';
    assert p[..1] == "/";
    assert '!' !in p[..1];
    ExtractCutsBeforeBang(p, 1);
    assert p[..0] == "";
    assert DropTrailingSlash(p[..0]) == "";
    assert "!x"[0] == '!';
  }

  /** A fragment directly after the path, without a separating '/', does not give the
      path's own key: the character before the '!' is lost. */
  lemma ExtractBangAfterPathLosesCharacter()
    ensures ExtractUIPath(Some("/foo!x")) == Extracted("/fo")
    ensures ExtractUIPath(Some("/foo!x")) != ExtractUIPath(Some("/foo"))
  {
    var p := "/foo!x";
    assert p[4] == '!';
    assert p[..4] == "/foo";
    assert '!' !in p[..4];
    ExtractCutsBeforeBang(p, 4);
    assert p[..3] == "/fo";
    assert DropTrailingSlash(p[..3]) == "/fo";
    ExtractKeepsPlainPath("/foo");
  }

  // ---------------------------------------------------------------------------
  // Path registry
  // ---------------------------------------------------------------------------

  /** The beans whose type is assignable to UI, in order. */
  function UIBeans(beans: seq<Bean>): (r: seq<Bean>)
    ensures forall b :: b in r <==> b in beans && b.isUI
    ensures |r| <= |beans|
  {
    if beans == [] then []
    else (if beans[0].isUI then [beans[0]] else []) + UIBeans(beans[1..])
  }

  /** Every bean is a UI bean. */
  ghost predicate AllUI(bs: seq<Bean>) {
    forall b :: b in bs ==> b.isUI
  }

  /** No two beans declare the same path. */
  ghost predicate DistinctPaths(bs: seq<Bean>) {
    forall i, j :: 0 <= i < j < |bs| ==> bs[i].path != bs[j].path
  }

  /** The keys of m are exactly the beans' paths. */
  ghost predicate KeysArePaths(m: map<string, ClassName>, bs: seq<Bean>) {
    forall k :: k in m <==> exists v :: v in bs && v.path == k
  }

  /** m maps every bean's path to that bean's type. */
  ghost predicate MapsToTypes(m: map<string, ClassName>, bs: seq<Bean>) {
    forall v :: v in bs ==> v.path in m && m[v.path] == v.beanType
  }

  /** How detectUIs ends: normally, or with the IllegalStateException naming the type
      already mapped to the path. */
  datatype DetectOutcome = Detected | AlreadyMapped(existing: ClassName, path: string)

  /** The registry map and the outcome after a scan. */
  datatype Scan = Scan(pathToUIMap: map<string, ClassName>, outcome: DetectOutcome)

  /** The loop of detectUIs run over `beans`, starting from the map `m`: non-UI beans are
      skipped, a UI bean whose path is already a key stops the scan with the map as it is,
      any other UI bean adds its path. An entry, once made, is never overwritten. */
  function DetectFrom(m: map<string, ClassName>, beans: seq<Bean>): (r: Scan)
    decreases |beans|
    ensures m.Keys <= r.pathToUIMap.Keys
    ensures forall k :: k in m ==> r.pathToUIMap[k] == m[k]
    ensures r.outcome.AlreadyMapped? ==>
              r.outcome.path in r.pathToUIMap && r.pathToUIMap[r.outcome.path] == r.outcome.existing
  {
    if beans == [] then Scan(m, Detected)
    else
      var b := beans[0];
      if !b.isUI then DetectFrom(m, beans[1..])
      else if b.path in m then Scan(m, AlreadyMapped(m[b.path], b.path))
      else DetectFrom(m[b.path := b.beanType], beans[1..])
  }

  /** Beans that are not UIs have no effect on the scan. */
  lemma {:induction false} DetectSkipsNonUI(m: map<string, ClassName>, beans: seq<Bean>)
    ensures DetectFrom(m, beans) == DetectFrom(m, UIBeans(beans))
    decreases |beans|
  {
    if beans != [] {
      DetectSkipsNonUI(m, beans[1..]);
      DetectSkipsNonUI(m[beans[0].path := beans[0].beanType], beans[1..]);
      var us := UIBeans(beans);
      if beans[0].isUI {
        assert us == [beans[0]] + UIBeans(beans[1..]);
        assert us[0] == beans[0] && us[1..] == UIBeans(beans[1..]);
      } else {
        assert us == UIBeans(beans[1..]);
      }
    }
  }

  /** Over UI beans only, the scan completes exactly when their paths are distinct and
      none of them is already a key of the starting map; the types play no part. */
  lemma {:induction false} DetectSucceedsIff(m: map<string, ClassName>, us: seq<Bean>)
    requires AllUI(us)
    ensures DetectFrom(m, us).outcome.Detected? <==>
              DistinctPaths(us) && forall u :: u in us ==> u.path !in m
    decreases |us|
  {
    if us != [] {
      var u := us[0];
      var m' := m[u.path := u.beanType];
      if u.path !in m {
        DetectSucceedsIff(m', us[1..]);
        if DistinctPaths(us) && forall v :: v in us ==> v.path !in m {
          forall v | v in us[1..] ensures v.path !in m' {
            var j :| 0 <= j < |us[1..]| && us[1..][j] == v;
            assert us[0].path != us[j + 1].path;
          }
        }
        if DistinctPaths(us[1..]) && forall v :: v in us[1..] ==> v.path !in m' {
          forall i, j | 0 <= i < j < |us| ensures us[i].path != us[j].path {
            assert us[j] == us[1..][j - 1];
            if i > 0 { assert us[i] == us[1..][i - 1]; }
          }
          forall v | v in us ensures v.path !in m {
            if v != u { assert v in us[1..]; }
          }
        }
      } else {
        assert u in us;
      }
    }
  }

  /** A completed scan over UI beans holds the starting map's entries and one entry per
      bean, mapping its path to its type, and nothing else. */
  lemma {:induction false} DetectContents(m: map<string, ClassName>, us: seq<Bean>)
    requires AllUI(us)
    requires DetectFrom(m, us).outcome.Detected?
    ensures var r := DetectFrom(m, us).pathToUIMap;
              (forall u :: u in us ==> u.path in r && r[u.path] == u.beanType) &&
              (forall k :: k in r ==> k in m || exists u :: u in us && u.path == k) &&
              |r| == |m| + |us|
    decreases |us|
  {
    if us != [] {
      var u := us[0];
      var m' := m[u.path := u.beanType];
      assert u.path !in m;
      DetectContents(m', us[1..]);
      var r := DetectFrom(m, us).pathToUIMap;
      assert r == DetectFrom(m', us[1..]).pathToUIMap;
      forall v | v in us ensures v.path in r && r[v.path] == v.beanType {
        if v != u { assert v in us[1..]; }
      }
      forall k | k in r ensures k in m || exists v :: v in us && v.path == k {
        if k !in m' {
          var v :| v in us[1..] && v.path == k;
          assert v in us;
        } else if k !in m {
          assert u in us && u.path == k;
        }
      }
    }
  }

  /** A scan over UI beans that stops does so at some bean j: the scan of the beans
      before j completed with the map as it is left, and bean j's path is a key of that
      map whose entry is the type reported, unchanged. */
  lemma {:induction false} DetectStopsAtDuplicate(m: map<string, ClassName>, us: seq<Bean>)
    requires AllUI(us)
    requires DetectFrom(m, us).outcome.AlreadyMapped?
    ensures var r := DetectFrom(m, us);
              exists j :: 0 <= j < |us| && us[j].path == r.outcome.path &&
                DetectFrom(m, us[..j]) == Scan(r.pathToUIMap, Detected) &&
                r.outcome.path in r.pathToUIMap &&
                r.pathToUIMap[r.outcome.path] == r.outcome.existing
    decreases |us|
  {
    var r := DetectFrom(m, us);
    var u := us[0];
    if u.path in m {
      assert us[..0] == [];
      assert us[0].path == r.outcome.path;
    } else {
      var m' := m[u.path := u.beanType];
      DetectStopsAtDuplicate(m', us[1..]);
      var j :| 0 <= j < |us[1..]| && us[1..][j].path == r.outcome.path &&
                DetectFrom(m', us[1..][..j]) == Scan(r.pathToUIMap, Detected);
      assert us[..j + 1][0] == u && us[..j + 1][1..] == us[1..][..j];
      assert us[j + 1].path == r.outcome.path;
    }
  }

  /** detectUIs from the empty map completes exactly when the UI beans' paths are
      distinct, whatever their types. */
  lemma DetectUIsCompletesIff(beans: seq<Bean>)
    ensures DetectFrom(map[], beans).outcome.Detected? <==> DistinctPaths(UIBeans(beans))
  {
    DetectSkipsNonUI(map[], beans);
    DetectSucceedsIff(map[], UIBeans(beans));
  }

  /** A completed detectUIs from the empty map maps every UI bean's path to its type,
      holds no other key, and has as many entries as there are UI beans. */
  lemma DetectUIsContents(beans: seq<Bean>)
    requires DetectFrom(map[], beans).outcome.Detected?
    ensures var m := DetectFrom(map[], beans).pathToUIMap;
              (forall b :: b in beans && b.isUI ==> b.path in m && m[b.path] == b.beanType) &&
              (forall k :: k in m ==> exists b :: b in beans && b.isUI && b.path == k) &&
              |m| == |UIBeans(beans)|
  {
    DetectSkipsNonUI(map[], beans);
    DetectContents(map[], UIBeans(beans));
  }

  /** A completed scan of UI beans from the empty map, restated: distinct paths, and the
      keys are exactly their paths, each mapped to the bean's type. */
  lemma {:induction false} CompletedScanFromEmpty(us: seq<Bean>, m: map<string, ClassName>)
    requires AllUI(us)
    requires DetectFrom(map[], us) == Scan(m, Detected)
    ensures DistinctPaths(us)
    ensures KeysArePaths(m, us)
    ensures MapsToTypes(m, us)
  {
    DetectSucceedsIff(map[], us);
    DetectContents(map[], us);
  }

  /** A scan of UI beans from the empty map that stops at bean j: an earlier bean i has
      the same path and the reported type, and the map holds exactly the entries of the
      beans before j: their paths as keys, each mapped to its bean's type. */
  lemma ScanFromEmptyStops(us: seq<Bean>)
    requires AllUI(us)
    requires DetectFrom(map[], us).outcome.AlreadyMapped?
    ensures var r := DetectFrom(map[], us);
              exists i, j :: 0 <= i < j < |us| &&
                us[i].path == r.outcome.path && us[j].path == r.outcome.path &&
                us[i].beanType == r.outcome.existing &&
                DistinctPaths(us[..j]) && KeysArePaths(r.pathToUIMap, us[..j]) &&
                MapsToTypes(r.pathToUIMap, us[..j])
  {
    var r := DetectFrom(map[], us);
    var m, p := r.pathToUIMap, r.outcome.path;
    DetectStopsAtDuplicate(map[], us);
    var j :| 0 <= j < |us| && us[j].path == p && DetectFrom(map[], us[..j]) == Scan(m, Detected);
    var before := us[..j];
    assert forall v :: v in before ==> v.isUI by {
      forall v | v in before ensures v.isUI { assert v in us; }
    }
    CompletedScanFromEmpty(before, m);
    var i := IndexOfPath(before, m, p);
    assert us[i] == before[i];
  }

  /** detectUIs from the empty map, when it throws: the reported path is that of some UI
      bean j, an earlier UI bean i has the same path and its type is the one reported, and
      the map holds exactly the entries of the UI beans before j: their paths as keys,
      each mapped to its bean's type. */
  lemma DetectUIsThrows(beans: seq<Bean>)
    requires DetectFrom(map[], beans).outcome.AlreadyMapped?
    ensures var r := DetectFrom(map[], beans);
            var us := UIBeans(beans);
              exists i, j :: 0 <= i < j < |us| &&
                us[i].path == r.outcome.path && us[j].path == r.outcome.path &&
                us[i].beanType == r.outcome.existing &&
                DistinctPaths(us[..j]) && KeysArePaths(r.pathToUIMap, us[..j]) &&
                MapsToTypes(r.pathToUIMap, us[..j])
  {
    DetectSkipsNonUI(map[], beans);
    ScanFromEmptyStops(UIBeans(beans));
  }

  /** The bean behind a key of a map whose keys are exactly the beans' paths. */
  lemma IndexOfPath(bs: seq<Bean>, m: map<string, ClassName>, p: string) returns (i: nat)
    requires KeysArePaths(m, bs)
    requires MapsToTypes(m, bs)
    requires p in m
    ensures 0 <= i < |bs| && bs[i].path == p && bs[i].beanType == m[p]
  {
    var v :| v in bs && v.path == p;
    i :| 0 <= i < |bs| && bs[i] == v;
  }

  /** The scan throws on reaching a UI bean j whose path is already a key, or is the path
      of an earlier UI bean i. */
  lemma {:induction false} ScanMeetsDuplicate(m: map<string, ClassName>, beans: seq<Bean>, i: nat, j: nat)
    requires j < |beans| && beans[j].isUI
    requires beans[j].path in m || (i < j && beans[i].isUI && beans[i].path == beans[j].path)
    ensures DetectFrom(m, beans).outcome.AlreadyMapped?
    decreases j
  {
    var b, rest := beans[0], beans[1..];
    if j > 0 && !(b.isUI && b.path in m) {
      assert beans[j] == rest[j - 1];
      if 0 < i < j { assert beans[i] == rest[i - 1]; }
      var m' := if b.isUI then m[b.path := b.beanType] else m;
      ScanMeetsDuplicate(m', rest, if i > 0 then i - 1 else 0, j - 1);
    }
  }

  /** Two UI beans declaring the same path, anywhere in the list and even with the same
      type, are fatal. */
  lemma DuplicatePathIsFatal(beans: seq<Bean>, i: nat, j: nat)
    requires i < j < |beans| && beans[i].isUI && beans[j].isUI
    requires beans[i].path == beans[j].path
    ensures DetectFrom(map[], beans).outcome.AlreadyMapped?
  {
    ScanMeetsDuplicate(map[], beans, i, j);
  }

  /** With no UI bean, detectUIs completes with an empty map: only a warning is logged. */
  lemma NoUIBeansGivesEmptyRegistry(beans: seq<Bean>)
    requires forall b :: b in beans ==> !b.isUI
    ensures DetectFrom(map[], beans) == Scan(map[], Detected)
  {
    DetectSkipsNonUI(map[], beans);
    assert UIBeans(beans) == [];
  }

  // ---------------------------------------------------------------------------
  // Scoped creation
  // ---------------------------------------------------------------------------

  /** The event Vaadin passes to createInstance. */
  datatype UICreateEvent = UICreateEvent(uiClass: ClassName, uiId: int)

  /** The identifier built from a creation event, which the UI scope reads. */
  datatype UIIdentifier = UIIdentifier(event: UICreateEvent)

  /** What the application context's getBean does: return a bean, or throw. */
  datatype CreateResult<U> = Created(ui: U) | Thrown(reason: string)

  /** The CurrentInstance entry keyed by the UI identifier class. */
  class CurrentInstance {
    var identifier: Option<UIIdentifier>

    constructor ()
      ensures identifier == None
    {
      identifier := None;
    }

    /** CurrentInstance.set(key, value). */
    method Set(value: Option<UIIdentifier>)
      modifies this
      ensures identifier == value
    {
      identifier := value;
    }
  }

  /** The result of getUIClass: a UI class, null, or the exception the extraction throws. */
  datatype Lookup = Found(uiClass: ClassName) | NotFound | ExtractionFailed

  /** UIScopeAwareUIProvider: the registry built when a session starts, the lookup, and
      the scoped creation of UI beans. */
  class UIScopeAwareUIProvider {
    var pathToUIMap: map<string, ClassName>

    /** The field initialiser: an empty map. */
    constructor ()
      ensures pathToUIMap == map[]
    {
      pathToUIMap := map[];
    }

    /** detectUIs over the annotated beans, in the order the context lists them. On a
        duplicate path it stops, leaving the map as the scan left it; `noUIsWarning` is
        whether the warning about an empty registry is logged. */
    method DetectUIs(beans: seq<Bean>) returns (outcome: DetectOutcome, noUIsWarning: bool)
      modifies this
      ensures Scan(pathToUIMap, outcome) == DetectFrom(old(pathToUIMap), beans)
      ensures noUIsWarning <==> outcome.Detected? && pathToUIMap == map[]
    {
      for i := 0 to |beans|
        invariant DetectFrom(pathToUIMap, beans[i..]) == DetectFrom(old(pathToUIMap), beans)
      {
        var b := beans[i];
        assert beans[i..][1..] == beans[i + 1..];
        if b.isUI {
          if b.path in pathToUIMap {
            outcome := AlreadyMapped(pathToUIMap[b.path], b.path);
            noUIsWarning := false;
            return;
          }
          pathToUIMap := pathToUIMap[b.path := b.beanType];
        }
      }
      outcome := Detected;
      noUIsWarning := pathToUIMap == map[];
    }

    /** getUIClass: the registry entry for the key extracted from the path-info. */
    function GetUIClass(pathInfo: Option<string>): (r: Lookup)
      reads this
      ensures r.ExtractionFailed? <==> ExtractUIPath(pathInfo).SubstringOutOfBounds?
      ensures r.Found? ==> r.uiClass in pathToUIMap.Values
      ensures pathToUIMap == map[] ==> !r.Found?
    {
      match ExtractUIPath(pathInfo)
      case SubstringOutOfBounds => ExtractionFailed
      case Extracted(path) => if path in pathToUIMap then Found(pathToUIMap[path]) else NotFound
    }

    /** createInstance: set the slot to the event's identifier, ask the context for the
        bean (which sees the slot set), and clear the slot whether that returned or threw.
        The slot's earlier value is not restored. */
    method CreateInstance<U>(event: UICreateEvent, current: CurrentInstance,
                             getBean: (ClassName, Option<UIIdentifier>) -> CreateResult<U>)
      returns (r: CreateResult<U>)
      modifies current
      ensures r == getBean(event.uiClass, Some(UIIdentifier(event)))
      ensures current.identifier == None
    {
      var identifier := UIIdentifier(event);
      current.Set(Some(identifier));
      var created := getBean(event.uiClass, current.identifier);
      current.Set(None);  // the finally block, on both exits
      r := created;
    }
  }

  /** The session-init listener's `new UIScopeAwareUIProvider(context)`: null when the
      constructor throws, with the outcome of detectUIs either way. */
  method NewProvider(beans: seq<Bean>) returns (provider: UIScopeAwareUIProvider?, outcome: DetectOutcome)
    ensures outcome == DetectFrom(map[], beans).outcome
    ensures provider != null <==> outcome.Detected?
    ensures provider != null ==> fresh(provider) && provider.pathToUIMap == DetectFrom(map[], beans).pathToUIMap
  {
    var p := new UIScopeAwareUIProvider();
    var warned;
    outcome, warned := p.DetectUIs(beans);
    provider := if outcome.Detected? then p else null;
  }

  /** A registered path without '!', longer than one character and not ending in '/',
      resolves to its type, with or without one trailing '/'. */
  lemma GetUIClassFindsRegisteredPath(p: UIScopeAwareUIProvider, key: string)
    requires key in p.pathToUIMap
    requires |key| > 1 && '!' !in key && !EndsWithSlash(key)
    ensures p.GetUIClass(Some(key)) == Found(p.pathToUIMap[key])
    ensures p.GetUIClass(Some(key + "/")) == Found(p.pathToUIMap[key])
  {
    ExtractKeepsPlainPath(key);
    var k' := key + "/";
    assert '!' !in k' by { assert forall c :: c in k' ==> c in key || c == '/'; }
    ExtractDropsOneTrailingSlash(k');
    assert k'[..|k'| - 1] == key;
  }

  /** A null path-info, "" and "/" all resolve to whatever the "" path maps to. */
  lemma GetUIClassRoot(p: UIScopeAwareUIProvider)
    ensures p.GetUIClass(None) == p.GetUIClass(Some("")) == p.GetUIClass(Some("/"))
    ensures p.GetUIClass(None) == if "" in p.pathToUIMap then Found(p.pathToUIMap[""]) else NotFound
  {
  }

  /** Whatever getUIClass finds is the entry of a registered key without '!': a path
      declared with a '!' can never be reached. */
  lemma GetUIClassFindsOnlyKeysWithoutBang(p: UIScopeAwareUIProvider, pathInfo: Option<string>)
    requires p.GetUIClass(pathInfo).Found?
    ensures exists k :: k in p.pathToUIMap && '!' !in k && p.pathToUIMap[k] == p.GetUIClass(pathInfo).uiClass
  {
    var k := ExtractUIPath(pathInfo).path;
    assert k in p.pathToUIMap;
  }

  /** Every registered key without '!' is reached by some path-info: "" by a null
      path-info, any other key by itself with one '/' appended. */
  lemma GetUIClassReachesKeysWithoutBang(p: UIScopeAwareUIProvider, key: string)
    requires key in p.pathToUIMap && '!' !in key
    ensures exists pathInfo :: p.GetUIClass(pathInfo) == Found(p.pathToUIMap[key])
  {
    if key == "" {
      assert p.GetUIClass(None) == Found(p.pathToUIMap[key]);
    } else {
      var k' := key + "/";
      assert '!' !in k' by { assert forall c :: c in k' ==> c in key || c == '/'; }
      ExtractDropsOneTrailingSlash(k');
      assert k'[..|k'| - 1] == key;
      assert p.GetUIClass(Some(k')) == Found(p.pathToUIMap[key]);
    }
  }

  /** With an empty registry, no path-info resolves to a UI class. */
  lemma GetUIClassEmptyRegistry(p: UIScopeAwareUIProvider, pathInfo: Option<string>)
    requires p.pathToUIMap == map[]
    ensures !p.GetUIClass(pathInfo).Found?
    ensures p.GetUIClass(pathInfo) == ExtractionFailed <==> ExtractUIPath(pathInfo).SubstringOutOfBounds?
  {
  }

  /** After a completed detectUIs, every UI bean whose declared path is longer than one
      character, has no '!' and no trailing '/' is found under that path. */
  lemma GetUIClassAfterDetect(p: UIScopeAwareUIProvider, beans: seq<Bean>, b: Bean)
    requires DetectFrom(map[], beans) == Scan(p.pathToUIMap, Detected)
    requires b in beans && b.isUI
    requires |b.path| > 1 && '!' !in b.path && !EndsWithSlash(b.path)
    ensures p.GetUIClass(Some(b.path)) == Found(b.beanType)
  {
    DetectUIsContents(beans);
    GetUIClassFindsRegisteredPath(p, b.path);
  }
}
