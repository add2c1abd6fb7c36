/**
 * The 10.0.1 "Replace random number generator" upgrade step at work on the
 * children of a parsed `<Context>` element. The first half states what each
 * edit does as a function on the list of children, with the properties the
 * step promises proved about it; the second half is the root element as an
 * object whose children the step's methods edit in place, each proved to
 * leave what its function describes.
 */
module ReplaceRandomNumberGenerator {
  import opened ElementTree

  /** The random number generator the step configures. */
  const ProviderKey := "secureRandomProvider"
  const Provider := "Mozilla-JSS"
  const AlgorithmKey := "secureRandomAlgorithm"
  const Algorithm := "pkcs11prng"

  /** The class names that identify the authenticator valve and the proxy realm. */
  const AuthenticatorClass := "com.netscape.cms.tomcat.SSLAuthenticatorWithFallback"
  const ProxyRealmClass := "com.netscape.cms.tomcat.ProxyRealm"

  /** The only error the edits raise: `etree.SubElement` handed `None` as the parent (a TypeError). */
  datatype Error = SubElementOfNone

  datatype Result<+T> = Ok(value: T) | Err(error: Error)

  /**
   * A child picked out by its tag and its `className`. A child without a
   * `className` yields None from `get`, which never equals a class name.
   */
  predicate Matches(e: Element, tag: string, cls: string)
  {
    e.tag == tag && Get(e, "className") == Some(cls)
  }

  predicate IsAuthenticator(e: Element)
  {
    Matches(e, "Valve", AuthenticatorClass)
  }

  predicate IsProxyRealm(e: Element)
  {
    Matches(e, "Realm", ProxyRealmClass)
  }

  /** The element carries the JSS random number generator. */
  predicate UsesJssRandom(e: Element)
  {
    Get(e, ProviderKey) == Some(Provider) && Get(e, AlgorithmKey) == Some(Algorithm)
  }

  /** The two `set` calls both upserters end with. */
  function UseJssRandom(e: Element): (r: Element)
    ensures r.tag == e.tag && UsesJssRandom(r)
    ensures forall k :: k != ProviderKey && k != AlgorithmKey ==> Get(r, k) == Get(e, k)
  {
    Set(Set(e, ProviderKey, Provider), AlgorithmKey, Algorithm)
  }

  /** A `Manager` as `etree.SubElement(context, 'Manager')` creates it: no attributes. */
  const NewManager := Element("Manager", map[])

  /** add_manager: configure the first `Manager` child, appending one when there is none. */
  function ManagerAdded(children: seq<Element>): seq<Element>
  {
    match Find(children, "Manager")
    case Some(i) => children[i := UseJssRandom(children[i])]
    case None => children + [UseJssRandom(NewManager)]
  }

  /** The index of the first child that is `tag` with `className` `cls`. */
  function FirstMatch(children: seq<Element>, tag: string, cls: string): (r: Option<nat>)
    ensures r.Some? ==> r.value < |children| && Matches(children[r.value], tag, cls)
    ensures r.Some? ==> forall j :: 0 <= j < r.value ==> !Matches(children[j], tag, cls)
    ensures r.None? ==> forall j :: 0 <= j < |children| ==> !Matches(children[j], tag, cls)
  {
    if children == [] then None
    else if Matches(children[0], tag, cls) then Some(0)
    else match FirstMatch(children[1..], tag, cls)
      case None => None
      case Some(i) => Some(i + 1)
  }

  /**
   * update_authenticator as written: configure the first authenticator valve;
   * with none, the step raises before it changes anything.
   */
  function AuthenticatorUpdated(children: seq<Element>): Result<seq<Element>>
  {
    match FirstMatch(children, "Valve", AuthenticatorClass)
    case Some(i) => Ok(children[i := UseJssRandom(children[i])])
    case None => Err(SubElementOfNone)
  }

  /** A `Valve` as `etree.SubElement(..., 'Valve')` creates it: no attributes. */
  const NewValve := Element("Valve", map[])

  /**
   * update_authenticator as evidently intended: with no authenticator valve, a
   * new `Valve` is appended to the root, given the authenticator class name and
   * configured like an existing one.
   */
  function AuthenticatorUpserted(children: seq<Element>): seq<Element>
  {
    match FirstMatch(children, "Valve", AuthenticatorClass)
    case Some(i) => children[i := UseJssRandom(children[i])]
    case None => children + [UseJssRandom(Set(NewValve, "className", AuthenticatorClass))]
  }

  /** remove_authenticator and remove_realm: drop every child that is `tag` with `className` `cls`. */
  function Removed(children: seq<Element>, tag: string, cls: string): (r: seq<Element>)
    ensures |r| <= |children|
  {
    if children == [] then []
    else (if Matches(children[0], tag, cls) then [] else [children[0]]) + Removed(children[1..], tag, cls)
  }

  /**
   * The in-memory part of upgrade_subsystem: the children written back to
   * context.xml, or the error that keeps the edited document from being written back.
   */
  function Upgraded(children: seq<Element>, version: int): Result<seq<Element>>
  {
    var managed := ManagerAdded(children);
    if version >= 10 then AuthenticatorUpdated(managed)
    else Ok(Removed(Removed(managed, "Valve", AuthenticatorClass), "Realm", ProxyRealmClass))
  }

  // ---------------------------------------------------------------------------
  // add_manager

  /** After add_manager the first `Manager` child carries the JSS random number generator. */
  lemma ManagerAddedConfiguresFirst(children: seq<Element>)
    ensures Find(ManagerAdded(children), "Manager").Some?
    ensures UsesJssRandom(ManagerAdded(children)[Find(ManagerAdded(children), "Manager").value])
  {
    match Find(children, "Manager")
    case Some(i) =>
      FindAfterUpdate(children, i, UseJssRandom(children[i]), "Manager");
    case None =>
      FindIs(ManagerAdded(children), "Manager", |children|);
  }

  /**
   * With a `Manager` present, add_manager keeps the number of children, changes
   * only the two generator attributes of the first `Manager`, and leaves every
   * other child as it was.
   */
  lemma ManagerAddedKeepsExisting(children: seq<Element>, i: nat)
    requires i < |children| && children[i].tag == "Manager"
    requires forall j :: 0 <= j < i ==> children[j].tag != "Manager"
    ensures |ManagerAdded(children)| == |children|
    ensures ManagerAdded(children)[i].tag == "Manager" && UsesJssRandom(ManagerAdded(children)[i])
    ensures forall k :: k != ProviderKey && k != AlgorithmKey ==>
              Get(ManagerAdded(children)[i], k) == Get(children[i], k)
    ensures forall j :: 0 <= j < |children| && j != i ==> ManagerAdded(children)[j] == children[j]
  {
    FindIs(children, "Manager", i);
  }

  /** With no `Manager`, add_manager appends exactly one, configured, after the unchanged children. */
  lemma ManagerAddedAppends(children: seq<Element>)
    requires forall j :: 0 <= j < |children| ==> children[j].tag != "Manager"
    ensures ManagerAdded(children) ==
            children + [Element("Manager", map[ProviderKey := Provider, AlgorithmKey := Algorithm])]
  {
    assert Find(children, "Manager").None?;
  }

  /** Applying add_manager twice gives the same children as applying it once. */
  lemma ManagerAddedIdempotent(children: seq<Element>)
    ensures ManagerAdded(ManagerAdded(children)) == ManagerAdded(children)
  {
    var once := ManagerAdded(children);
    match Find(children, "Manager")
    case Some(i) =>
      FindAfterUpdate(children, i, UseJssRandom(children[i]), "Manager");
      UseJssRandomIdempotent(children[i]);
    case None =>
      FindIs(once, "Manager", |children|);
      UseJssRandomIdempotent(NewManager);
  }

  lemma UseJssRandomIdempotent(e: Element)
    ensures UseJssRandom(UseJssRandom(e)) == UseJssRandom(e)
  {
    assert UseJssRandom(UseJssRandom(e)).attrs == UseJssRandom(e).attrs;
  }

  // ---------------------------------------------------------------------------
  // update_authenticator

  /**
   * With an authenticator valve present, update_authenticator succeeds, adds no
   * child, configures the first such valve, and leaves later authenticator
   * valves and every other child as they were.
   */
  lemma AuthenticatorUpdatedFirstOnly(children: seq<Element>, i: nat)
    requires i < |children| && IsAuthenticator(children[i])
    requires forall j :: 0 <= j < i ==> !IsAuthenticator(children[j])
    ensures AuthenticatorUpdated(children).Ok?
    ensures |AuthenticatorUpdated(children).value| == |children|
    ensures IsAuthenticator(AuthenticatorUpdated(children).value[i])
    ensures UsesJssRandom(AuthenticatorUpdated(children).value[i])
    ensures forall k :: k != ProviderKey && k != AlgorithmKey ==>
              Get(AuthenticatorUpdated(children).value[i], k) == Get(children[i], k)
    ensures forall j :: 0 <= j < |children| && j != i ==> AuthenticatorUpdated(children).value[j] == children[j]
  {
    var f := FirstMatch(children, "Valve", AuthenticatorClass);
    assert f == Some(i);
  }

  /** FirstMatch answers with the first matching child: any index so characterised is its answer. */
  lemma FirstMatchIs(children: seq<Element>, tag: string, cls: string, i: nat)
    requires i < |children| && Matches(children[i], tag, cls)
    requires forall j :: 0 <= j < i ==> !Matches(children[j], tag, cls)
    ensures FirstMatch(children, tag, cls) == Some(i)
  {
  }

  /** update_authenticator fails exactly when no `Valve` carries the authenticator class name. */
  lemma AuthenticatorUpdatedFails(children: seq<Element>)
    ensures AuthenticatorUpdated(children).Err? <==>
            forall j :: 0 <= j < |children| ==> !IsAuthenticator(children[j])
    ensures AuthenticatorUpdated(children).Err? ==> AuthenticatorUpdated(children).error == SubElementOfNone
  {
  }

  /**
   * The defect at its smallest: a context with no children at all passes
   * add_manager and then stops the version 10 upgrade, while the intended
   * update leaves a configured authenticator valve behind.
   */
  lemma EmptyContextUpgradeFails()
    ensures Upgraded([], 10) == Err(SubElementOfNone)
    ensures AuthenticatorUpserted(ManagerAdded([])) ==
            [Element("Manager", map[ProviderKey := Provider, AlgorithmKey := Algorithm]),
             Element("Valve", map["className" := AuthenticatorClass, ProviderKey := Provider, AlgorithmKey := Algorithm])]
  {
    var managed := ManagerAdded([]);
    ManagerAddedAppends([]);
    assert FirstMatch(managed, "Valve", AuthenticatorClass).None?;
  }

  /** The intended update always leaves a first authenticator valve that uses the JSS generator. */
  lemma AuthenticatorUpsertedConfigures(children: seq<Element>)
    ensures FirstMatch(AuthenticatorUpserted(children), "Valve", AuthenticatorClass).Some?
    ensures UsesJssRandom(AuthenticatorUpserted(children)[
              FirstMatch(AuthenticatorUpserted(children), "Valve", AuthenticatorClass).value])
  {
    var r := AuthenticatorUpserted(children);
    match FirstMatch(children, "Valve", AuthenticatorClass)
    case Some(i) =>
      assert Get(r[i], "className") == Get(children[i], "className");
      FirstMatchIs(r, "Valve", AuthenticatorClass, i);
    case None =>
      FirstMatchIs(r, "Valve", AuthenticatorClass, |children|);
  }

  /** Where the step as written succeeds, the intended update does exactly the same. */
  lemma AuthenticatorUpsertedAgrees(children: seq<Element>)
    ensures AuthenticatorUpdated(children).Ok? ==> AuthenticatorUpserted(children) == AuthenticatorUpdated(children).value
  {
  }

  /**
   * With no authenticator valve, the intended update appends exactly one valve,
   * carrying the class name and the two generator attributes, after the
   * unchanged children.
   */
  lemma AuthenticatorUpsertedAppends(children: seq<Element>)
    requires forall j :: 0 <= j < |children| ==> !IsAuthenticator(children[j])
    ensures AuthenticatorUpserted(children) ==
            children + [Element("Valve", map["className" := AuthenticatorClass, ProviderKey := Provider, AlgorithmKey := Algorithm])]
  {
    assert FirstMatch(children, "Valve", AuthenticatorClass).None?;
  }

  /** Applying the intended update twice gives the same children as applying it once: no duplicate valve. */
  lemma AuthenticatorUpsertedIdempotent(children: seq<Element>)
    ensures AuthenticatorUpserted(AuthenticatorUpserted(children)) == AuthenticatorUpserted(children)
  {
    var once := AuthenticatorUpserted(children);
    match FirstMatch(children, "Valve", AuthenticatorClass)
    case Some(i) =>
      assert Get(once[i], "className") == Get(children[i], "className");
      FirstMatchIs(once, "Valve", AuthenticatorClass, i);
      UseJssRandomIdempotent(children[i]);
    case None =>
      FirstMatchIs(once, "Valve", AuthenticatorClass, |children|);
      UseJssRandomIdempotent(Set(NewValve, "className", AuthenticatorClass));
  }

  // ---------------------------------------------------------------------------
  // remove_authenticator, remove_realm

  /** `a` is `s` with some of its elements left out, the rest in their original order. */
  predicate IsSubsequence(a: seq<Element>, s: seq<Element>)
    decreases |s|
  {
    if a == [] then true
    else if s == [] then false
    else (a[0] == s[0] && IsSubsequence(a[1..], s[1..])) || IsSubsequence(a, s[1..])
  }

  /** The removers keep the remaining children in their original relative order. */
  lemma {:induction false} RemovedKeepsOrder(children: seq<Element>, tag: string, cls: string)
    ensures IsSubsequence(Removed(children, tag, cls), children)
  {
    if children != [] {
      RemovedKeepsOrder(children[1..], tag, cls);
      var rest := Removed(children[1..], tag, cls);
      if Matches(children[0], tag, cls) {
        assert Removed(children, tag, cls) == rest;
      } else {
        assert Removed(children, tag, cls) == [children[0]] + rest;
        assert ([children[0]] + rest)[1..] == rest;
      }
    }
  }

  /**
   * The removers drop every copy of a matching child and keep every copy of any
   * other child, including valves and realms with another or no `className`.
   */
  lemma {:induction false} RemovedCounts(children: seq<Element>, tag: string, cls: string)
    ensures forall e :: multiset(Removed(children, tag, cls))[e] ==
                        if Matches(e, tag, cls) then 0 else multiset(children)[e]
  {
    if children != [] {
      RemovedCounts(children[1..], tag, cls);
      assert children == [children[0]] + children[1..];
    }
  }

  /** Removing again changes nothing. */
  lemma {:induction false} RemovedIdempotent(children: seq<Element>, tag: string, cls: string)
    ensures Removed(Removed(children, tag, cls), tag, cls) == Removed(children, tag, cls)
  {
    if children != [] {
      RemovedIdempotent(children[1..], tag, cls);
      var rest := Removed(children[1..], tag, cls);
      if Matches(children[0], tag, cls) {
        assert Removed(children, tag, cls) == rest;
      } else {
        var once := [children[0]] + rest;
        assert Removed(children, tag, cls) == once;
        assert once[0] == children[0] && once[1..] == rest;
        assert Removed(once, tag, cls) == [children[0]] + Removed(rest, tag, cls);
      }
    }
  }

  /** Removing from a concatenation removes from each part. */
  lemma {:induction false} RemovedAppend(a: seq<Element>, b: seq<Element>, tag: string, cls: string)
    ensures Removed(a + b, tag, cls) == Removed(a, tag, cls) + Removed(b, tag, cls)
  {
    if a == [] {
      assert a + b == b;
    } else {
      assert (a + b)[1..] == a[1..] + b;
      RemovedAppend(a[1..], b, tag, cls);
    }
  }

  /** A run of children none of which has the tag is left as it is. */
  lemma {:induction false} RemovedNone(children: seq<Element>, tag: string, cls: string)
    requires forall k :: 0 <= k < |children| ==> children[k].tag != tag
    ensures Removed(children, tag, cls) == children
  {
    if children != [] {
      RemovedNone(children[1..], tag, cls);
    }
  }

  /** What survives the removal was a child and does not match. */
  lemma {:induction false} RemovedMembers(children: seq<Element>, tag: string, cls: string)
    ensures forall e :: e in Removed(children, tag, cls) ==> e in children && !Matches(e, tag, cls)
  {
    if children != [] {
      RemovedMembers(children[1..], tag, cls);
      var rest := Removed(children[1..], tag, cls);
      assert children == [children[0]] + children[1..];
      if Matches(children[0], tag, cls) {
        assert Removed(children, tag, cls) == rest;
      } else {
        assert Removed(children, tag, cls) == [children[0]] + rest;
      }
    }
  }

  /** Removing `tag` children does not change which child `find` picks for another tag. */
  lemma {:induction false} RemovedKeepsFind(children: seq<Element>, tag: string, cls: string, other: string)
    requires other != tag
    ensures Find(Removed(children, tag, cls), other).Some? == Find(children, other).Some?
    ensures Find(children, other).Some? ==>
              Removed(children, tag, cls)[Find(Removed(children, tag, cls), other).value] ==
              children[Find(children, other).value]
  {
    if children != [] {
      var head, tail := children[0], children[1..];
      var rest := Removed(tail, tag, cls);
      RemovedKeepsFind(tail, tag, cls, other);
      if head.tag == other {
        var kept := [head] + rest;
        assert Removed(children, tag, cls) == kept;
        assert Find(children, other) == Some(0) && Find(kept, other) == Some(0);
      } else if Matches(head, tag, cls) {
        assert Removed(children, tag, cls) == rest;
        match Find(tail, other)
        case None =>
          assert Find(children, other) == None;
        case Some(i) =>
          assert Find(children, other) == Some(i + 1) && children[i + 1] == tail[i];
      } else {
        var kept := [head] + rest;
        assert Removed(children, tag, cls) == kept;
        assert kept[1..] == rest;
        match Find(tail, other)
        case None =>
          assert Find(children, other) == None && Find(kept, other) == None;
        case Some(i) =>
          var n := Find(rest, other).value;
          assert Find(children, other) == Some(i + 1) && children[i + 1] == tail[i];
          assert Find(kept, other) == Some(n + 1) && kept[n + 1] == rest[n];
      }
    }
  }

  // ---------------------------------------------------------------------------
  // upgrade_subsystem

  /** add_manager neither adds nor removes an authenticator valve. */
  lemma ManagerAddedKeepsAuthenticators(children: seq<Element>)
    ensures (exists j :: 0 <= j < |ManagerAdded(children)| && IsAuthenticator(ManagerAdded(children)[j])) <==>
            (exists j :: 0 <= j < |children| && IsAuthenticator(children[j]))
  {
    var once := ManagerAdded(children);
    match Find(children, "Manager")
    case Some(i) =>
      assert forall j :: 0 <= j < |children| ==> (IsAuthenticator(once[j]) <==> IsAuthenticator(children[j]));
    case None =>
      assert forall j :: 0 <= j < |children| ==> once[j] == children[j];
  }

  /**
   * upgrade_subsystem does not write the edited document back exactly when the version is 10 or later
   * and the descriptor has no authenticator valve.
   */
  lemma UpgradedFails(children: seq<Element>, version: int)
    ensures Upgraded(children, version).Err? <==>
            version >= 10 && forall j :: 0 <= j < |children| ==> !IsAuthenticator(children[j])
  {
    ManagerAddedKeepsAuthenticators(children);
  }

  /**
   * What a successful upgrade_subsystem writes: the first `Manager` uses the JSS
   * generator; from version 10 on so does the first authenticator valve; below
   * version 10 no authenticator valve and no proxy realm is left.
   */
  lemma UpgradedEndState(children: seq<Element>, version: int)
    requires Upgraded(children, version).Ok?
    ensures Find(Upgraded(children, version).value, "Manager").Some?
    ensures UsesJssRandom(Upgraded(children, version).value[Find(Upgraded(children, version).value, "Manager").value])
    ensures version >= 10 ==> FirstMatch(Upgraded(children, version).value, "Valve", AuthenticatorClass).Some?
    ensures version >= 10 ==>
              UsesJssRandom(Upgraded(children, version).value[
                FirstMatch(Upgraded(children, version).value, "Valve", AuthenticatorClass).value])
    ensures version < 10 ==>
              forall e :: e in Upgraded(children, version).value ==> !IsAuthenticator(e) && !IsProxyRealm(e)
  {
    var managed := ManagerAdded(children);
    ManagerAddedConfiguresFirst(children);
    var m := Find(managed, "Manager").value;
    var r := Upgraded(children, version).value;
    if version >= 10 {
      var i := FirstMatch(managed, "Valve", AuthenticatorClass).value;
      FindAfterUpdate(managed, i, UseJssRandom(managed[i]), "Manager");
      assert Get(r[i], "className") == Get(managed[i], "className");
      FirstMatchIs(r, "Valve", AuthenticatorClass, i);
    } else {
      var noValve := Removed(managed, "Valve", AuthenticatorClass);
      RemovedKeepsFind(managed, "Valve", AuthenticatorClass, "Manager");
      RemovedKeepsFind(noValve, "Realm", ProxyRealmClass, "Manager");
      RemovedMembers(managed, "Valve", AuthenticatorClass);
      RemovedMembers(noValve, "Realm", ProxyRealmClass);
    }
  }

  // ---------------------------------------------------------------------------
  // The root element, edited in place

  /** The root `<Context>` element of a parsed context.xml. */
  class Context {
    var children: seq<Element>

    /** The root as `etree.parse` hands it over. */
    constructor (children: seq<Element>)
      ensures this.children == children
    {
      this.children := children;
    }

    /** add_manager: find the first `Manager`, create one if there is none, and set the two generator attributes. */
    method AddManager()
      modifies this
      ensures children == ManagerAdded(old(children))
    {
      var manager := Find(children, "Manager");
      if manager.None? {
        // etree.SubElement(context, 'Manager')
        children := children + [NewManager];
        manager := Some(|children| - 1);
      }
      var i := manager.value;
      children := children[i := Set(children[i], ProviderKey, Provider)];
      children := children[i := Set(children[i], AlgorithmKey, Algorithm)];
    }

    /**
     * The scan update_authenticator starts with: walk the `Valve` children in
     * document order and stop at the first whose `className` is the
     * authenticator's.
     */
    method FindAuthenticator() returns (authenticator: Option<nat>)
      ensures authenticator == FirstMatch(children, "Valve", AuthenticatorClass)
    {
      var valves := FindAll(children, "Valve");
      for j := 0 to |valves|
        invariant forall m :: 0 <= m < j ==> valves[m] < |children| && !IsAuthenticator(children[valves[m]])
      {
        FindAllAt(children, "Valve", j);
        var valve := children[valves[j]];
        if Get(valve, "className") != Some(AuthenticatorClass) {
          continue;
        }
        NoEarlierAuthenticator(children, valves, j);
        FirstMatchIs(children, "Valve", AuthenticatorClass, valves[j]);
        return Some(valves[j]);
      }
      forall k | 0 <= k < |children| && children[k].tag == "Valve"
        ensures !IsAuthenticator(children[k])
      {
        FindAllComplete(children, "Valve", k);
        var m :| 0 <= m < |valves| && valves[m] == k;
      }
      return None;
    }

    /**
     * update_authenticator as written: configure the first authenticator valve.
     * With none, the new valve's parent is None, so the step fails with nothing
     * changed.
     */
    method UpdateAuthenticator() returns (outcome: Result<()>)
      modifies this
      ensures AuthenticatorUpdated(old(children)).Ok? ==>
                outcome == Ok(()) && children == AuthenticatorUpdated(old(children)).value
      ensures AuthenticatorUpdated(old(children)).Err? ==>
                outcome == Err(AuthenticatorUpdated(old(children)).error) && children == old(children)
    {
      var authenticator := FindAuthenticator();
      if authenticator.None? {
        // etree.SubElement(None, 'Valve') raises before anything is created
        return Err(SubElementOfNone);
      }
      var i := authenticator.value;
      children := children[i := Set(children[i], ProviderKey, Provider)];
      children := children[i := Set(children[i], AlgorithmKey, Algorithm)];
      outcome := Ok(());
    }

    /**
     * update_authenticator as evidently intended: with no authenticator valve, a
     * new `Valve` is created under the root and given the class name before both
     * paths set the two generator attributes.
     */
    method UpsertAuthenticator()
      modifies this
      ensures children == AuthenticatorUpserted(old(children))
    {
      var authenticator := FindAuthenticator();
      if authenticator.None? {
        // etree.SubElement(context, 'Valve')
        children := children + [NewValve];
        authenticator := Some(|children| - 1);
        children := children[|children| - 1 := Set(children[|children| - 1], "className", AuthenticatorClass)];
      }
      var i := authenticator.value;
      children := children[i := Set(children[i], ProviderKey, Provider)];
      children := children[i := Set(children[i], AlgorithmKey, Algorithm)];
    }

    /** remove_authenticator: delete every `Valve` child carrying the authenticator class name. */
    method RemoveAuthenticator()
      modifies this
      ensures children == Removed(old(children), "Valve", AuthenticatorClass)
    {
      RemoveMatching("Valve", AuthenticatorClass);
    }

    /** remove_realm: delete every `Realm` child carrying the proxy realm class name. */
    method RemoveRealm()
      modifies this
      ensures children == Removed(old(children), "Realm", ProxyRealmClass)
    {
      RemoveMatching("Realm", ProxyRealmClass);
    }

    /**
     * The loop both removers run: walk a `findall(tag)` snapshot and remove each
     * element whose `className` is `cls`. An element of the snapshot sits, at the
     * time it is removed, `removed` places before its original index.
     */
    method RemoveMatching(tag: string, cls: string)
      modifies this
      ensures children == Removed(old(children), tag, cls)
    {
      var snapshot := children;
      var found := FindAll(snapshot, tag);
      var removed: int := 0;
      ghost var done: nat := 0;
      ghost var kept: seq<Element> := [];
      for j := 0 to |found|
        invariant done == ResumeAt(found, j) <= |snapshot|
        invariant kept == Removed(snapshot[..done], tag, cls)
        invariant children == kept + snapshot[done..]
        invariant removed == done - |kept|
      {
        RemovedThrough(snapshot, tag, found, j);
        var element := snapshot[found[j]];
        if Get(element, "className") == Some(cls) {
          // context.remove(element): it now sits `removed` places before its index in the snapshot
          var at: int := found[j] - removed;
          RemovedDrop(snapshot, tag, cls, done, found[j], kept, children, at);
          children := children[..at] + children[at + 1..];
          removed := removed + 1;
        } else {
          RemovedKeep(snapshot, tag, cls, done, found[j], kept, children);
        }
        done := found[j] + 1;
        kept := Removed(snapshot[..done], tag, cls);
      }
      RemovedAfterLast(snapshot, tag, cls, found);
    }

    /**
     * The in-memory part of upgrade_subsystem: configure the `Manager`, then from
     * version 10 on update the authenticator, below it remove the authenticator
     * valves and the proxy realms. Returns the children written back to
     * context.xml, or the error that keeps the edited document from being written back.
     */
    method UpgradeSubsystem(version: int) returns (written: Result<seq<Element>>)
      modifies this
      ensures written == Upgraded(old(children), version)
      ensures written.Ok? ==> children == written.value
      ensures written.Err? ==> children == ManagerAdded(old(children))
    {
      AddManager();
      var outcome: Result<()> := Ok(());
      if version >= 10 {
        outcome := UpdateAuthenticator();
      } else {
        RemoveAuthenticator();
        RemoveRealm();
      }
      if outcome.Err? {
        return Err(outcome.error);
      }
      written := Ok(children);
    }
  }

  /** When the scan stops at valve `j`, no earlier child is an authenticator. */
  lemma NoEarlierAuthenticator(children: seq<Element>, valves: seq<nat>, j: nat)
    requires valves == FindAll(children, "Valve")
    requires j < |valves| && valves[j] < |children| && IsAuthenticator(children[valves[j]])
    requires forall m :: 0 <= m < j ==> valves[m] < |children| && !IsAuthenticator(children[valves[m]])
    ensures forall k :: 0 <= k < valves[j] ==> !IsAuthenticator(children[k])
  {
    forall k | 0 <= k < valves[j] && children[k].tag == "Valve"
      ensures !IsAuthenticator(children[k])
    {
      FindAllComplete(children, "Valve", k);
      var m :| 0 <= m < |valves| && valves[m] == k;
      FindAllMonotone(children, "Valve", m, j);
    }
  }

  /** Where the removers' scan of the snapshot resumes after handling `found[..j]`. */
  function ResumeAt(found: seq<nat>, j: nat): nat
    requires j <= |found|
  {
    if j == 0 then 0 else found[j - 1] + 1
  }

  /**
   * The removers' scan jumps from where it resumes straight to `found[j]`: the
   * children it passes over do not have the tag.
   */
  lemma RemovedThrough(snapshot: seq<Element>, tag: string, found: seq<nat>, j: nat)
    requires found == FindAll(snapshot, tag)
    requires j < |found|
    ensures ResumeAt(found, j) <= found[j] < |snapshot| && snapshot[found[j]].tag == tag
    ensures forall i :: ResumeAt(found, j) <= i < found[j] ==> snapshot[i].tag != tag
  {
    var lo := ResumeAt(found, j);
    FindAllAt(snapshot, tag, j);
    if 0 < j { FindAllOrdered(snapshot, tag, j - 1, j); }
    forall i | lo <= i < found[j] ensures snapshot[i].tag != tag {
      forall m | 0 <= m < |found| ensures found[m] != i {
        FindAllMonotone(snapshot, tag, m, j);
        if m < j - 1 { FindAllOrdered(snapshot, tag, m, j - 1); }
      }
      assert i !in found;
      FindAllComplete(snapshot, tag, i);
    }
  }

  /** Past the last child with the tag nothing is removed. */
  lemma RemovedAfterLast(snapshot: seq<Element>, tag: string, cls: string, found: seq<nat>)
    requires found == FindAll(snapshot, tag)
    ensures ResumeAt(found, |found|) <= |snapshot|
    ensures Removed(snapshot, tag, cls) ==
            Removed(snapshot[..ResumeAt(found, |found|)], tag, cls) + snapshot[ResumeAt(found, |found|)..]
  {
    var lo := ResumeAt(found, |found|);
    if found != [] { FindAllAt(snapshot, tag, |found| - 1); }
    forall i | lo <= i < |snapshot| ensures snapshot[i].tag != tag {
      forall m | 0 <= m < |found| ensures found[m] != i {
        if m < |found| - 1 { FindAllOrdered(snapshot, tag, m, |found| - 1); }
      }
      assert i !in found;
      FindAllComplete(snapshot, tag, i);
    }
    assert snapshot == snapshot[..lo] + snapshot[lo..];
    RemovedNone(snapshot[lo..], tag, cls);
    RemovedAppend(snapshot[..lo], snapshot[lo..], tag, cls);
  }

  /** The processed prefix grows by a run without the tag and one element. */
  lemma RemovedStep(snapshot: seq<Element>, done: nat, k: nat, tag: string, cls: string)
    requires done <= k < |snapshot|
    requires forall i :: done <= i < k ==> snapshot[i].tag != tag
    ensures Matches(snapshot[k], tag, cls) ==>
              Removed(snapshot[..k + 1], tag, cls) == Removed(snapshot[..done], tag, cls) + snapshot[done..k]
    ensures !Matches(snapshot[k], tag, cls) ==>
              Removed(snapshot[..k + 1], tag, cls) == Removed(snapshot[..done], tag, cls) + snapshot[done..k] + [snapshot[k]]
  {
    var gap := snapshot[done..k];
    assert snapshot[..k + 1] == snapshot[..done] + gap + [snapshot[k]];
    RemovedAppend(snapshot[..done] + gap, [snapshot[k]], tag, cls);
    RemovedAppend(snapshot[..done], gap, tag, cls);
    RemovedNone(gap, tag, cls);
  }

  /**
   * A matching element sits at `at` in the current children; removing it there
   * leaves the reduced longer prefix followed by the unprocessed rest.
   */
  lemma RemovedDrop(snapshot: seq<Element>, tag: string, cls: string, done: nat, k: nat,
                    kept: seq<Element>, current: seq<Element>, at: int)
    requires done <= k < |snapshot| && Matches(snapshot[k], tag, cls)
    requires forall i :: done <= i < k ==> snapshot[i].tag != tag
    requires kept == Removed(snapshot[..done], tag, cls)
    requires current == kept + snapshot[done..]
    requires at == |kept| + k - done
    ensures 0 <= at < |current| && current[at] == snapshot[k]
    ensures current[..at] + current[at + 1..] == Removed(snapshot[..k + 1], tag, cls) + snapshot[k + 1..]
    ensures |Removed(snapshot[..k + 1], tag, cls)| == |kept| + k - done
  {
    RemovedStep(snapshot, done, k, tag, cls);
    var gap, after := snapshot[done..k], snapshot[k + 1..];
    assert snapshot[done..] == gap + [snapshot[k]] + after;
    assert current[..at] == kept + gap;
    assert current[at + 1..] == after;
  }

  /** An element that does not match stays: the current children already read as the longer prefix reduced. */
  lemma RemovedKeep(snapshot: seq<Element>, tag: string, cls: string, done: nat, k: nat,
                    kept: seq<Element>, current: seq<Element>)
    requires done <= k < |snapshot| && !Matches(snapshot[k], tag, cls)
    requires forall i :: done <= i < k ==> snapshot[i].tag != tag
    requires kept == Removed(snapshot[..done], tag, cls)
    requires current == kept + snapshot[done..]
    ensures current == Removed(snapshot[..k + 1], tag, cls) + snapshot[k + 1..]
    ensures |Removed(snapshot[..k + 1], tag, cls)| == |kept| + k - done + 1
  {
    RemovedStep(snapshot, done, k, tag, cls);
    var gap, after := snapshot[done..k], snapshot[k + 1..];
    assert snapshot[done..] == gap + [snapshot[k]] + after;
  }
}
