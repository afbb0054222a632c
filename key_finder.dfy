// The "Find Localization Key" editor window: which components in the scene hold a
// given key, and the hierarchy path shown for each GameObject found.

module KeyFinder {
  import opened Wrappers
  import opened DotNetText

  // ---------- the scene, as reflection sees it ----------

  /** Reading a member by reflection: it yields a value ("as string": a string or null) or throws. */
  datatype Read = Returns(value: Option<string>) | Throws

  /** An instance field, in GetFields order; isString says its declared type is exactly string. */
  datatype Field = Field(isString: bool, read: Read)

  /** An instance property, in GetProperties order, with its readability and indexer arity. */
  datatype Property = Property(isString: bool, canRead: bool, indexParameters: nat, read: Read)

  /** A GameObject: its name and the names of its ancestors, nearest parent first. */
  class GameObject {
    const name: string
    const ancestors: seq<string>

    constructor (name: string, ancestors: seq<string>)
      ensures this.name == name && this.ancestors == ancestors
    {
      this.name, this.ancestors := name, ancestors;
    }
  }

  /** A MonoBehaviour: the name of its runtime type, its GameObject and its members. */
  datatype Behaviour = Behaviour(typeName: string, gameObject: GameObject, fields: seq<Field>, properties: seq<Property>)

  /**
   * A scene: for each root, what GetComponentsInChildren<MonoBehaviour> yields,
   * None standing for a missing script.
   */
  type Scene = seq<seq<Option<Behaviour>>>

  // ---------- IsLocalizationComponent ----------

  /** A component is inspected exactly when its type name contains "Localized" (ordinal, case-sensitive). */
  function IsLocalizationComponent(b: Behaviour): (r: bool)
    ensures r <==> OccursIn("Localized", b.typeName)
  {
    Contains(b.typeName, "Localized")
  }

  lemma LocalizedTypesAreInspected(typeName: string, g: GameObject)
    ensures IsLocalizationComponent(Behaviour("Localized" + typeName, g, [], []))
  {
    assert SliceAt("Localized", "Localized" + typeName, 0);
  }

  lemma ShortTypeNamesAreSkipped(typeName: string, g: GameObject)
    requires |typeName| < 9
    ensures !IsLocalizationComponent(Behaviour(typeName, g, [], []))
  {
  }

  // ---------- SafeExtractKey ----------

  /** The non-empty string a field gives as a key: a string field read without throwing. */
  function FieldKey(f: Field): Option<string>
  {
    if f.isString && f.read.Returns? && !IsNullOrEmpty(f.read.value) then f.read.value else None
  }

  /** The non-empty string a property gives as a key: a readable, non-indexer string property read without throwing. */
  function PropertyKey(p: Property): Option<string>
  {
    if p.isString && p.canRead && p.indexParameters == 0 && p.read.Returns? && !IsNullOrEmpty(p.read.value)
    then p.read.value else None
  }

  /** The key each field gives, in GetFields order. */
  function FieldKeys(fields: seq<Field>): seq<Option<string>>
  {
    seq(|fields|, k requires 0 <= k < |fields| => FieldKey(fields[k]))
  }

  /** The key each property gives, in GetProperties order. */
  function PropertyKeys(properties: seq<Property>): seq<Option<string>>
  {
    seq(|properties|, k requires 0 <= k < |properties| => PropertyKey(properties[k]))
  }

  /** The first present value: None exactly when all are absent, and otherwise one of them. */
  function FirstSome(xs: seq<Option<string>>): (r: Option<string>)
    ensures r.None? <==> forall k :: 0 <= k < |xs| ==> xs[k].None?
    ensures r.Some? ==> r in xs
  {
    if xs == [] then None
    else if xs[0].Some? then xs[0]
    else FirstSome(xs[1..])
  }

  /** A present value with only absent ones before it is the first present value. */
  lemma {:induction false} FirstSomeIsFirst(xs: seq<Option<string>>, i: nat)
    requires i < |xs| && xs[i].Some?
    requires forall k :: 0 <= k < i ==> xs[k].None?
    ensures FirstSome(xs) == xs[i]
  {
    if i > 0 {
      FirstSomeIsFirst(xs[1..], i - 1);
    }
  }

  /**
   * The key of a component: the first field key, and only when there is none the
   * first property key; None (null) when neither exists. A key is never empty.
   */
  function ExtractKey(b: Behaviour): (r: Option<string>)
    ensures r.Some? ==> r.value != ""
    ensures r.None? <==> (forall k :: 0 <= k < |b.fields| ==> FieldKey(b.fields[k]).None?)
                         && (forall k :: 0 <= k < |b.properties| ==> PropertyKey(b.properties[k]).None?)
  {
    var fs, ps := FieldKeys(b.fields), PropertyKeys(b.properties);
    assert |fs| == |b.fields| && forall k :: 0 <= k < |fs| ==> fs[k] == FieldKey(b.fields[k]);
    assert |ps| == |b.properties| && forall k :: 0 <= k < |ps| ==> ps[k] == PropertyKey(b.properties[k]);
    var f := FirstSome(fs);
    if f.Some? then f else FirstSome(ps)
  }

  /** The first field with a key decides, whatever the properties hold. */
  lemma FieldKeyWins(b: Behaviour, i: nat)
    requires i < |b.fields| && FieldKey(b.fields[i]).Some?
    requires forall k :: 0 <= k < i ==> FieldKey(b.fields[k]).None?
    ensures ExtractKey(b) == FieldKey(b.fields[i])
  {
    FirstSomeIsFirst(FieldKeys(b.fields), i);
  }

  /** Without a field key, the first property with a key decides. */
  lemma PropertyKeyFallback(b: Behaviour, i: nat)
    requires forall k :: 0 <= k < |b.fields| ==> FieldKey(b.fields[k]).None?
    requires i < |b.properties| && PropertyKey(b.properties[i]).Some?
    requires forall k :: 0 <= k < i ==> PropertyKey(b.properties[k]).None?
    ensures ExtractKey(b) == PropertyKey(b.properties[i])
  {
    FirstSomeIsFirst(PropertyKeys(b.properties), i);
  }

  /**
   * SafeExtractKey: the fields in order, skipping non-string fields, null or empty
   * values and fields that throw; then the properties likewise, also skipping
   * unreadable ones and indexers; null when nothing qualifies.
   */
  method SafeExtractKey(b: Behaviour) returns (key: Option<string>)
    ensures key == ExtractKey(b)
  {
    var i := 0;
    while i < |b.fields|
      invariant 0 <= i <= |b.fields|
      invariant forall k :: 0 <= k < i ==> FieldKey(b.fields[k]).None?
    {
      var field := b.fields[i];
      if field.isString {
        match field.read
        case Throws =>
        case Returns(value) =>
          if !IsNullOrEmpty(value) {
            FieldKeyWins(b, i);
            return value;
          }
      }
      i := i + 1;
    }
    var j := 0;
    while j < |b.properties|
      invariant 0 <= j <= |b.properties|
      invariant forall k :: 0 <= k < j ==> PropertyKey(b.properties[k]).None?
    {
      var prop := b.properties[j];
      if prop.isString && prop.canRead && prop.indexParameters == 0 {
        match prop.read
        case Throws =>
        case Returns(value) =>
          if !IsNullOrEmpty(value) {
            PropertyKeyFallback(b, j);
            return value;
          }
      }
      j := j + 1;
    }
    return None;
  }

  // ---------- Search ----------

  /** A component found by a search for key: present, a localization component, and holding exactly key. */
  predicate Matches(key: string, c: Option<Behaviour>)
  {
    c.Some? && IsLocalizationComponent(c.value) && ExtractKey(c.value) == Some(key)
  }

  /** The GameObjects of the matching components, one entry per component, in order. */
  function Matching(key: string, comps: seq<Option<Behaviour>>): seq<GameObject>
  {
    if comps == [] then []
    else
      var last := comps[|comps| - 1];
      Matching(key, comps[..|comps| - 1]) + (if Matches(key, last) then [last.value.gameObject] else [])
  }

  /** The matches of every root, root after root. */
  function SceneMatching(key: string, scene: Scene): seq<GameObject>
  {
    if scene == [] then [] else SceneMatching(key, scene[..|scene| - 1]) + Matching(key, scene[|scene| - 1])
  }

  /** What Search leaves in results: nothing for a blank key, otherwise the scene's matches. */
  function SearchResults(key: string, scene: Scene): seq<GameObject>
  {
    if IsNullOrWhiteSpace(Some(key)) then [] else SceneMatching(key, scene)
  }

  /** Matching is taken component by component: the matches of a concatenation are concatenated. */
  lemma {:induction false} MatchingAppend(key: string, a: seq<Option<Behaviour>>, b: seq<Option<Behaviour>>)
    ensures Matching(key, a + b) == Matching(key, a) + Matching(key, b)
    decreases |b|
  {
    if b != [] {
      var init := b[..|b| - 1];
      assert (a + b)[..|a + b| - 1] == a + init;
      MatchingAppend(key, a, init);
    } else {
      assert a + b == a;
    }
  }

  /** The j-th component matches and lives on g. */
  predicate MatchAt(key: string, comps: seq<Option<Behaviour>>, j: int, g: GameObject)
  {
    0 <= j < |comps| && Matches(key, comps[j]) && comps[j].value.gameObject == g
  }

  /** g is among the matches exactly when some matching component lives on g. */
  lemma {:induction false} MatchingMembership(key: string, comps: seq<Option<Behaviour>>, g: GameObject)
    ensures g in Matching(key, comps) <==> exists j :: MatchAt(key, comps, j, g)
  {
    if comps != [] {
      var n := |comps| - 1;
      var init := comps[..n];
      MatchingMembership(key, init, g);
      if g in Matching(key, comps) {
        if g in Matching(key, init) {
          var j :| MatchAt(key, init, j, g);
          assert MatchAt(key, comps, j, g);
        } else {
          assert MatchAt(key, comps, n, g);
        }
      }
      if exists j :: MatchAt(key, comps, j, g) {
        var j :| MatchAt(key, comps, j, g);
        if j < n {
          assert MatchAt(key, init, j, g);
        }
      }
    }
  }

  /** The positions of the components that match. */
  function MatchPositions(key: string, comps: seq<Option<Behaviour>>): set<int>
  {
    set j | 0 <= j < |comps| && Matches(key, comps[j])
  }

  /** The positions of the matching components that live on g. */
  function MatchPositionsOn(key: string, comps: seq<Option<Behaviour>>, g: GameObject): set<int>
  {
    set j | 0 <= j < |comps| && MatchAt(key, comps, j, g)
  }

  /** The matching positions of a prefix, and the last position when it matches. */
  lemma PositionsSnoc(key: string, comps: seq<Option<Behaviour>>)
    requires comps != []
    ensures var n := |comps| - 1;
      MatchPositions(key, comps) == MatchPositions(key, comps[..n]) + (if Matches(key, comps[n]) then {n} else {})
      && n !in MatchPositions(key, comps[..n])
  {
    var n := |comps| - 1;
    assert forall j :: 0 <= j < n ==> comps[..n][j] == comps[j];
  }

  /** The same, for the matching positions on g. */
  lemma PositionsOnSnoc(key: string, comps: seq<Option<Behaviour>>, g: GameObject)
    requires comps != []
    ensures var n := |comps| - 1;
      MatchPositionsOn(key, comps, g) == MatchPositionsOn(key, comps[..n], g) + (if MatchAt(key, comps, n, g) then {n} else {})
      && n !in MatchPositionsOn(key, comps[..n], g)
  {
    var n := |comps| - 1;
    assert forall j :: 0 <= j < n ==> comps[..n][j] == comps[j];
  }

  /** There is one result per matching component: the results are as many as the matching components. */
  lemma {:induction false} MatchingCount(key: string, comps: seq<Option<Behaviour>>)
    ensures |Matching(key, comps)| == |MatchPositions(key, comps)|
  {
    if comps != [] {
      var n := |comps| - 1;
      MatchingCount(key, comps[..n]);
      PositionsSnoc(key, comps);
    }
  }

  /**
   * A GameObject is listed once for every matching component on it, so an object
   * carrying several matching components appears several times.
   */
  lemma {:induction false} MatchingMultiplicity(key: string, comps: seq<Option<Behaviour>>, g: GameObject)
    ensures multiset(Matching(key, comps))[g] == |MatchPositionsOn(key, comps, g)|
  {
    if comps != [] {
      var n := |comps| - 1;
      MatchingMultiplicity(key, comps[..n], g);
      PositionsOnSnoc(key, comps, g);
    }
  }

  /** The i-th root's j-th component matches and lives on g. */
  predicate SceneMatchAt(key: string, scene: Scene, i: int, j: int, g: GameObject)
  {
    0 <= i < |scene| && MatchAt(key, scene[i], j, g)
  }

  /** Every GameObject among the scene's matches comes from a matching component. */
  lemma {:induction false} SceneMatchingSound(key: string, scene: Scene, g: GameObject)
    requires g in SceneMatching(key, scene)
    ensures exists i, j :: SceneMatchAt(key, scene, i, j, g)
  {
    var n := |scene| - 1;
    var init := scene[..n];
    if g in SceneMatching(key, init) {
      SceneMatchingSound(key, init, g);
      var i, j :| SceneMatchAt(key, init, i, j, g);
      assert SceneMatchAt(key, scene, i, j, g);
    } else {
      MatchingMembership(key, scene[n], g);
      var j :| MatchAt(key, scene[n], j, g);
      assert SceneMatchAt(key, scene, n, j, g);
    }
  }

  /** The GameObject of every matching component is among the scene's matches. */
  lemma {:induction false} SceneMatchingComplete(key: string, scene: Scene, i: int, j: int, g: GameObject)
    requires SceneMatchAt(key, scene, i, j, g)
    ensures g in SceneMatching(key, scene)
  {
    var n := |scene| - 1;
    var init := scene[..n];
    if i < n {
      assert SceneMatchAt(key, init, i, j, g);
      SceneMatchingComplete(key, init, i, j, g);
    } else {
      MatchingMembership(key, scene[n], g);
    }
  }

  /**
   * A GameObject appears in the results exactly when the key is not blank and some
   * present localization component on it holds exactly that key.
   */
  lemma SearchResultsMembership(key: string, scene: Scene, g: GameObject)
    ensures g in SearchResults(key, scene) <==>
      !IsNullOrWhiteSpace(Some(key)) && exists i, j :: SceneMatchAt(key, scene, i, j, g)
  {
    if g in SearchResults(key, scene) {
      SceneMatchingSound(key, scene, g);
    }
    if !IsNullOrWhiteSpace(Some(key)) && exists i, j :: SceneMatchAt(key, scene, i, j, g) {
      var i, j :| SceneMatchAt(key, scene, i, j, g);
      SceneMatchingComplete(key, scene, i, j, g);
    }
  }

  /** A component with no usable string field or property is never found, whatever the key. */
  lemma NoStringValueNeverMatches(b: Behaviour, key: string)
    requires forall k :: 0 <= k < |b.fields| ==> FieldKey(b.fields[k]).None?
    requires forall k :: 0 <= k < |b.properties| ==> PropertyKey(b.properties[k]).None?
    ensures !Matches(key, Some(b))
  {
  }

  /** The empty key is never found, since Search stops at a blank key and no component has an empty key. */
  lemma EmptyKeyFindsNothing(scene: Scene)
    ensures SearchResults("", scene) == []
  {
  }

  /** The window's state: the key typed in and the GameObjects found by the last search. */
  class KeyFinderWindow {
    var searchKey: string
    var results: seq<GameObject>

    constructor ()
      ensures searchKey == "" && results == []
    {
      searchKey := "";
      results := [];
    }

    /**
     * Search: clears the results, stops at a blank key, and otherwise appends the
     * GameObject of every matching component, root by root, component by component.
     */
    method Search(scene: Scene)
      modifies this`results
      ensures results == SearchResults(searchKey, scene)
      ensures IsNullOrWhiteSpace(Some(searchKey)) ==> results == []
    {
      results := [];
      if IsNullOrWhiteSpace(Some(searchKey)) {
        return;
      }
      var r := 0;
      while r < |scene|
        invariant 0 <= r <= |scene|
        invariant results == SceneMatching(searchKey, scene[..r])
      {
        var comps := scene[r];
        var c := 0;
        while c < |comps|
          invariant 0 <= c <= |comps|
          invariant results == SceneMatching(searchKey, scene[..r]) + Matching(searchKey, comps[..c])
        {
          var comp := comps[c];
          MatchingSnoc(searchKey, comps, c, SceneMatching(searchKey, scene[..r]));
          if comp.Some? && IsLocalizationComponent(comp.value) {
            var key := SafeExtractKey(comp.value);
            if key == Some(searchKey) {
              results := results + [comp.value.gameObject];
            }
          }
          c := c + 1;
        }
        SceneMatchingSnoc(searchKey, scene, r);
        r := r + 1;
      }
      assert scene[..|scene|] == scene;
    }
  }

  /** One more component adds its GameObject exactly when it matches. */
  lemma MatchingSnoc(key: string, comps: seq<Option<Behaviour>>, c: nat, before: seq<GameObject>)
    requires c < |comps|
    ensures before + Matching(key, comps[..c + 1])
            == before + Matching(key, comps[..c]) + (if Matches(key, comps[c]) then [comps[c].value.gameObject] else [])
  {
    assert comps[..c + 1][..c] == comps[..c];
  }

  /** A whole root's matches follow those of the roots before it. */
  lemma SceneMatchingSnoc(key: string, scene: Scene, r: nat)
    requires r < |scene|
    ensures SceneMatching(key, scene[..r + 1]) == SceneMatching(key, scene[..r]) + Matching(key, scene[r][..|scene[r]|])
  {
    assert scene[..r + 1][..r] == scene[..r];
    assert scene[r][..|scene[r]|] == scene[r];
  }

  // ---------- GetFullPath ----------

  function Reversed(s: seq<string>): (r: seq<string>)
    ensures |r| == |s| && forall k :: 0 <= k < |s| ==> r[k] == s[|s| - 1 - k]
  {
    if s == [] then [] else [s[|s| - 1]] + Reversed(s[..|s| - 1])
  }

  /** The hierarchy path: the ancestors' names from the root down, then the object's own name, joined by '/'. */
  function FullPath(name: string, ancestors: seq<string>): string
  {
    Join(Reversed(ancestors) + [name], '/')
  }

  /** GetFullPath: prefixes the name of each parent in turn, walking up to the root. */
  method GetFullPath(go: GameObject) returns (path: string)
    ensures path == FullPath(go.name, go.ancestors)
  {
    path := go.name;
    var i := 0;
    while i < |go.ancestors|
      invariant 0 <= i <= |go.ancestors|
      invariant path == FullPath(go.name, go.ancestors[..i])
    {
      var rest := Reversed(go.ancestors[..i]) + [go.name];
      assert go.ancestors[..i + 1][..i] == go.ancestors[..i];
      assert Reversed(go.ancestors[..i + 1]) + [go.name] == [go.ancestors[i]] + rest;
      assert ([go.ancestors[i]] + rest)[1..] == rest;
      path := go.ancestors[i] + "/" + path;
      i := i + 1;
    }
    assert go.ancestors[..|go.ancestors|] == go.ancestors;
  }

  /** A GameObject without a parent is shown by its name alone. */
  lemma RootPathIsName(name: string)
    ensures FullPath(name, []) == name
  {
  }

  /** A join ends with its last piece. */
  lemma {:induction false} JoinEndsWithLast(pieces: seq<string>, sep: char)
    requires |pieces| >= 1
    ensures var j, last := Join(pieces, sep), pieces[|pieces| - 1];
      |last| <= |j| && j[|j| - |last|..] == last
  {
    if |pieces| > 1 {
      JoinEndsWithLast(pieces[1..], sep);
      assert pieces[1..][|pieces[1..]| - 1] == pieces[|pieces| - 1];
    }
  }

  /** The path always ends with the object's own name. */
  lemma PathEndsWithName(name: string, ancestors: seq<string>)
    ensures var p := FullPath(name, ancestors); |name| <= |p| && p[|p| - |name|..] == name
  {
    JoinEndsWithLast(Reversed(ancestors) + [name], '/');
  }

  /** When no name contains '/', splitting the path at '/' gives the names from the root down. */
  lemma PathSplitsIntoNames(name: string, ancestors: seq<string>)
    requires '/' !in name && forall k :: 0 <= k < |ancestors| ==> '/' !in ancestors[k]
    ensures Split(FullPath(name, ancestors), '/') == Reversed(ancestors) + [name]
  {
    var pieces := Reversed(ancestors) + [name];
    forall k | 0 <= k < |pieces|
      ensures '/' !in pieces[k]
    {
      if k < |ancestors| {
        assert pieces[k] == ancestors[|ancestors| - 1 - k];
      }
    }
    SplitJoin(pieces, '/');
  }
}
