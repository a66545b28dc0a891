/** `RealBarber`: resolves a (copy model, document spec) pair against the installed
    document copies into a renderer, and builds the catalog of every renderer the
    installed copies declare. */
module RealBarber {
  import opened KotlinStd
  import opened Models

  // ---------------------------------------------------------------------------
  // Field reconciliation
  // ---------------------------------------------------------------------------

  /** The constructor parameter names that are neither null nor blank. */
  function NamedParameters(parameters: seq<Option<string>>): set<string> {
    set p | p in parameters && !IsNullOrBlank(p) :: p.value
  }

  /** `filterKeys` over `parameters.associateBy { it.name }`: every non-null, non-blank
      parameter name that the template's fields lack, once each, in the order of its
      first occurrence among the parameters. */
  function MissingFields(parameters: seq<Option<string>>, fields: map<string, Option<string>>): (r: seq<string>)
    ensures forall i :: 0 <= i < |r| ==> r[i] in NamedParameters(parameters) && r[i] !in fields
    ensures forall x :: x in NamedParameters(parameters) && x !in fields ==> x in r
    ensures forall i, j :: 0 <= i < j < |r| ==> r[i] != r[j]
  {
    if parameters == [] then []
    else
      var rest := MissingFields(parameters[..|parameters| - 1], fields);
      var p := parameters[|parameters| - 1];
      assert parameters == parameters[..|parameters| - 1] + [p];
      if !IsNullOrBlank(p) && p.value !in fields && p.value !in rest then rest + [p.value] else rest
  }

  /** Nothing is missing from a field map that already has every named parameter. */
  lemma {:induction false} MissingFieldsNone(parameters: seq<Option<string>>, fields: map<string, Option<string>>)
    requires forall p :: p in parameters && !IsNullOrBlank(p) ==> p.value in fields
    ensures MissingFields(parameters, fields) == []
  {
    if parameters != [] {
      var front := parameters[..|parameters| - 1];
      assert forall p :: p in front ==> p in parameters;
      MissingFieldsNone(front, fields);
    }
  }

  /** The field map a renderer is built with: the template's own fields, untouched,
      and every named constructor parameter the template lacks, bound to null. */
  function Reconciled(fields: map<string, Option<string>>, parameters: seq<Option<string>>): map<string, Option<string>> {
    map k | k in fields.Keys + NamedParameters(parameters) :: if k in fields then fields[k] else None
  }

  /** The reconciled map keeps every template field with its value, and adds exactly
      the named parameters the template lacks, each bound to null. */
  lemma ReconciledSpec(fields: map<string, Option<string>>, parameters: seq<Option<string>>)
    ensures Reconciled(fields, parameters).Keys == fields.Keys + NamedParameters(parameters)
    ensures forall k :: k in fields ==> Reconciled(fields, parameters)[k] == fields[k]
    ensures forall k :: k in Reconciled(fields, parameters) && k !in fields ==>
      Reconciled(fields, parameters)[k] == None
  {
  }

  /** Every key reconciliation adds is the name of a constructor parameter, and never a
      null or blank one. */
  lemma ReconciledAddsOnlyNamed(fields: map<string, Option<string>>, parameters: seq<Option<string>>)
    ensures forall k :: k in Reconciled(fields, parameters) && k !in fields ==>
      Some(k) in parameters && !IsBlank(k)
  {
    ReconciledSpec(fields, parameters);
    forall k | k in Reconciled(fields, parameters) && k !in fields
      ensures Some(k) in parameters && !IsBlank(k)
    {
      assert k in NamedParameters(parameters);
      var p :| p in parameters && !IsNullOrBlank(p) && p.value == k;
      assert p == Some(k);
    }
  }

  /** Reconciling a second time, against the same constructor, finds nothing missing
      and changes nothing. */
  lemma ReconcileIdempotent(fields: map<string, Option<string>>, parameters: seq<Option<string>>)
    ensures MissingFields(parameters, Reconciled(fields, parameters)) == []
    ensures Reconciled(Reconciled(fields, parameters), parameters) == Reconciled(fields, parameters)
  {
    var reconciled := Reconciled(fields, parameters);
    ReconciledSpec(fields, parameters);
    forall p | p in parameters && !IsNullOrBlank(p)
      ensures p.value in reconciled
    {
      assert p.value in NamedParameters(parameters);
    }
    MissingFieldsNone(parameters, reconciled);
  }

  // ---------------------------------------------------------------------------
  // newRenderer
  // ---------------------------------------------------------------------------

  /** What `newRenderer(copyModel, target)` yields: the renderer, or the failure it raises. */
  function Resolve(reg: Registry, ctors: ConstructorTable, copyModel: Tag, target: Tag): Result<Renderer> {
    if copyModel !in reg.copies then Err(UnboundCopyModel(copyModel))
    else
      var documentCopy := reg.copies[copyModel];
      if target !in documentCopy.targets then Err(InvalidTarget(target, documentCopy.targets))
      else if target !in ctors then Err(NoPrimaryConstructor(target))
      else Ok(Renderer(target, ctors[target], Reconciled(documentCopy.fields, ctors[target])))
  }

  /** `newRenderer` fails with `UnboundCopyModel` exactly when no copy is installed for the
      copy model, with `InvalidTarget` (listing the copy's targets) exactly when the copy
      does not declare the target, with `NoPrimaryConstructor` exactly when the target has
      no primary constructor, and otherwise builds a renderer for the target from its
      constructor's parameters and the reconciled fields. */
  lemma ResolveSpec(reg: Registry, ctors: ConstructorTable, copyModel: Tag, target: Tag)
    ensures Resolve(reg, ctors, copyModel, target) == Err(UnboundCopyModel(copyModel)) <==>
      copyModel !in reg.copies
    ensures Resolve(reg, ctors, copyModel, target).Err? && Resolve(reg, ctors, copyModel, target).error.InvalidTarget? <==>
      copyModel in reg.copies && target !in reg.copies[copyModel].targets
    ensures copyModel in reg.copies && target !in reg.copies[copyModel].targets ==>
      Resolve(reg, ctors, copyModel, target) == Err(InvalidTarget(target, reg.copies[copyModel].targets))
    ensures Resolve(reg, ctors, copyModel, target) == Err(NoPrimaryConstructor(target)) <==>
      copyModel in reg.copies && target in reg.copies[copyModel].targets && target !in ctors
    ensures Resolve(reg, ctors, copyModel, target).Ok? <==>
      copyModel in reg.copies && target in reg.copies[copyModel].targets && target in ctors
    ensures Resolve(reg, ctors, copyModel, target).Ok? ==>
      Resolve(reg, ctors, copyModel, target).value ==
        Renderer(target, ctors[target], Reconciled(reg.copies[copyModel].fields, ctors[target]))
  {
  }

  /** `newRenderer`: look the copy model up, check the target, then fill a copy of the
      template's fields with `putIfAbsent(name, null)` for every missing field. */
  method NewRenderer(reg: Registry, ctors: ConstructorTable, copyModel: Tag, target: Tag)
    returns (r: Result<Renderer>)
    ensures r == Resolve(reg, ctors, copyModel, target)
  {
    if copyModel !in reg.copies {
      return Err(UnboundCopyModel(copyModel));
    }
    var documentCopy := reg.copies[copyModel];
    if target !in documentCopy.targets {
      return Err(InvalidTarget(target, documentCopy.targets));
    }
    if target !in ctors {
      return Err(NoPrimaryConstructor(target));
    }
    var parameters := ctors[target];
    var missingFields := MissingFields(parameters, documentCopy.fields);
    var documentCopyFields := documentCopy.fields;
    var i := 0;
    while i < |missingFields|
      invariant 0 <= i <= |missingFields|
      invariant forall k :: k in documentCopyFields ==> k in documentCopy.fields || k in missingFields[..i]
      invariant forall k :: k in documentCopy.fields ==>
        k in documentCopyFields && documentCopyFields[k] == documentCopy.fields[k]
      invariant forall j :: 0 <= j < i ==>
        missingFields[j] in documentCopyFields && documentCopyFields[missingFields[j]] == None
    {
      documentCopyFields := PutIfAbsent(documentCopyFields, missingFields[i], None);
      i := i + 1;
    }
    assert missingFields[..i] == missingFields;
    ReconciledSpec(documentCopy.fields, parameters);
    assert documentCopyFields == Reconciled(documentCopy.fields, parameters);
    return Ok(Renderer(target, parameters, documentCopyFields));
  }

  // ---------------------------------------------------------------------------
  // getAllRenderers
  // ---------------------------------------------------------------------------

  /** The keys an installed copy declares, one per target, in target order. */
  function TargetKeys(c: DocumentCopy): seq<RendererKey> {
    seq(|c.targets|, j requires 0 <= j < |c.targets| => RendererKey(c.source, c.targets[j]))
  }

  /** `c` declares the renderer `k`: `k` pairs `c`'s source with one of `c`'s targets. */
  predicate Declares(c: DocumentCopy, k: RendererKey) {
    k.source == c.source && k.target in c.targets
  }

  /** The sum of the target-list lengths of `cs`. */
  function TargetCount(cs: seq<DocumentCopy>): nat {
    if cs == [] then 0 else |cs[0].targets| + TargetCount(cs[1..])
  }

  /** The `forEach` over one copy's targets visits one key per target, and exactly the
      keys the copy declares. */
  lemma TargetKeysSpec(c: DocumentCopy)
    ensures |TargetKeys(c)| == |c.targets|
    ensures forall k :: k in TargetKeys(c) <==> Declares(c, k)
  {
    forall k | Declares(c, k)
      ensures k in TargetKeys(c)
    {
      var j :| 0 <= j < |c.targets| && c.targets[j] == k.target;
      assert TargetKeys(c)[j] == k;
    }
  }

  /** The keys `getAllRenderers` visits, in visiting order, for the copies `cs`. */
  function KeysOf(cs: seq<DocumentCopy>): (r: seq<RendererKey>)
    ensures |r| == TargetCount(cs)
  {
    if cs == [] then [] else TargetKeys(cs[0]) + KeysOf(cs[1..])
  }

  /** A key is visited exactly when one of the copies declares it. */
  lemma {:induction false} KeysOfMembership(cs: seq<DocumentCopy>, k: RendererKey)
    ensures k in KeysOf(cs) <==> exists i :: 0 <= i < |cs| && Declares(cs[i], k)
  {
    if cs != [] {
      var c, rest := cs[0], cs[1..];
      KeysOfMembership(rest, k);
      TargetKeysSpec(c);
      if exists i :: 0 <= i < |rest| && Declares(rest[i], k) {
        var i :| 0 <= i < |rest| && Declares(rest[i], k);
        assert Declares(cs[i + 1], k);
      }
      if exists i :: 0 <= i < |cs| && Declares(cs[i], k) {
        var i :| 0 <= i < |cs| && Declares(cs[i], k);
        if i > 0 {
          assert Declares(rest[i - 1], k);
        }
      }
    }
  }

  /** What the loop of `getAllRenderers` does from `m` on with the keys still to visit:
      each key is put with the renderer `resolve` (that is, `newRenderer`) gives for it;
      the first failure aborts the loop and is what it raises. */
  function Build(resolve: RendererKey -> Result<Renderer>, m: LinkedMap<RendererKey, Renderer>, keys: seq<RendererKey>)
    : Result<LinkedMap<RendererKey, Renderer>>
    decreases |keys|
  {
    if keys == [] then Ok(m)
    else
      match resolve(keys[0])
      case Err(e) => Err(e)
      case Ok(renderer) => Build(resolve, m.Put(keys[0], renderer), keys[1..])
  }

  /** `newRenderer` as a function of the key it is asked for. */
  function Resolver(reg: Registry, ctors: ConstructorTable): RendererKey -> Result<Renderer> {
    (k: RendererKey) => Resolve(reg, ctors, k.source, k.target)
  }

  /** What `getAllRenderers()` returns or raises. */
  function Catalog(reg: Registry, ctors: ConstructorTable): Result<LinkedMap<RendererKey, Renderer>>
    requires reg.Valid()
  {
    Build(Resolver(reg, ctors), EmptyLinkedMap(), KeysOf(reg.Installed()))
  }

  /** Every key of `keys` resolves. */
  predicate AllResolve(resolve: RendererKey -> Result<Renderer>, keys: seq<RendererKey>) {
    forall i :: 0 <= i < |keys| ==> resolve(keys[i]).Ok?
  }

  /** The loop succeeds exactly when every key still to visit resolves. */
  lemma {:induction false} BuildSucceedsIff(resolve: RendererKey -> Result<Renderer>,
                                            m: LinkedMap<RendererKey, Renderer>, keys: seq<RendererKey>)
    ensures Build(resolve, m, keys).Ok? <==> AllResolve(resolve, keys)
    decreases |keys|
  {
    if keys != [] {
      var k := keys[0];
      match resolve(k)
      case Err(_) =>
      case Ok(renderer) =>
        BuildSucceedsIff(resolve, m.Put(k, renderer), keys[1..]);
        assert forall i :: 0 < i < |keys| ==> keys[i] == keys[1..][i - 1];
    }
  }

  /** A failed loop raises the failure of the first key that did not resolve. */
  lemma {:induction false} BuildFirstError(resolve: RendererKey -> Result<Renderer>,
                                           m: LinkedMap<RendererKey, Renderer>, keys: seq<RendererKey>)
    requires Build(resolve, m, keys).Err?
    ensures exists i :: (
      && 0 <= i < |keys|
      && resolve(keys[i]) == Err(Build(resolve, m, keys).error)
      && forall j :: 0 <= j < i ==> resolve(keys[j]).Ok?)
    decreases |keys|
  {
    var k := keys[0];
    match resolve(k)
    case Err(_) =>
    case Ok(renderer) =>
      var rest := keys[1..];
      BuildFirstError(resolve, m.Put(k, renderer), rest);
      var i :| (
        && 0 <= i < |rest|
        && resolve(rest[i]) == Err(Build(resolve, m, keys).error)
        && forall j :: 0 <= j < i ==> resolve(rest[j]).Ok?);
      assert keys[i + 1] == rest[i];
      assert forall j :: 0 < j < i + 1 ==> keys[j] == rest[j - 1];
  }

  /** A successful loop keeps the map well formed. */
  lemma {:induction false} BuildValid(resolve: RendererKey -> Result<Renderer>,
                                      m: LinkedMap<RendererKey, Renderer>, keys: seq<RendererKey>,
                                      m': LinkedMap<RendererKey, Renderer>)
    requires m.Valid() && Build(resolve, m, keys) == Ok(m')
    ensures m'.Valid()
    decreases |keys|
  {
    if keys != [] {
      var k, rest := keys[0], keys[1..];
      PutSpec(m, k, resolve(k).value);
      BuildValid(resolve, m.Put(k, resolve(k).value), rest, m');
    }
  }

  /** A successful loop appends the keys it had not seen yet, in first-visit order. */
  lemma {:induction false} BuildOrder(resolve: RendererKey -> Result<Renderer>,
                                      m: LinkedMap<RendererKey, Renderer>, keys: seq<RendererKey>,
                                      m': LinkedMap<RendererKey, Renderer>)
    requires m.Valid() && Build(resolve, m, keys) == Ok(m')
    ensures m'.order == FirstOccurrences(m.order + keys)
    decreases |keys|
  {
    if keys == [] {
      assert m' == m && m.order + keys == m.order;
      ValidOrderFirstOccurrences(m);
    } else {
      var k, rest := keys[0], keys[1..];
      var m1 := m.Put(k, resolve(k).value);
      assert Build(resolve, m1, rest) == Ok(m');
      PutOrder(m, k, resolve(k).value, rest);
      BuildOrder(resolve, m1, rest, m');
      assert keys == [k] + rest;
    }
  }

  /** A successful loop binds every visited key to the renderer `resolve` gives for
      it and leaves every other entry as it was. */
  lemma {:induction false} BuildEntries(resolve: RendererKey -> Result<Renderer>,
                                        m: LinkedMap<RendererKey, Renderer>, keys: seq<RendererKey>,
                                        m': LinkedMap<RendererKey, Renderer>)
    requires Build(resolve, m, keys) == Ok(m')
    ensures forall k :: k in m'.entries <==> k in m.entries || k in keys
    ensures forall k :: k in keys ==> resolve(k) == Ok(m'.entries[k])
    ensures forall k :: k in m.entries && k !in keys ==> m'.entries[k] == m.entries[k]
    decreases |keys|
  {
    if keys != [] {
      var k, rest := keys[0], keys[1..];
      var renderer := resolve(k).value;
      PutSpec(m, k, renderer);
      BuildEntries(resolve, m.Put(k, renderer), rest, m');
      assert forall k' :: k' in keys <==> k' == k || k' in rest;
    }
  }

  /** The visited keys are exactly the pairs some installed copy declares. */
  lemma VisitedKeys(reg: Registry, k: RendererKey)
    requires reg.Valid()
    ensures k in KeysOf(reg.Installed()) <==> exists t :: t in reg.copies && Declares(reg.copies[t], k)
  {
    var cs := reg.Installed();
    KeysOfMembership(cs, k);
    if exists t :: t in reg.copies && Declares(reg.copies[t], k) {
      var t :| t in reg.copies && Declares(reg.copies[t], k);
      var i :| 0 <= i < |reg.order| && reg.order[i] == t;
      assert Declares(cs[i], k);
    }
  }

  /** Every visited key resolves exactly when every pair an installed copy declares does. */
  lemma VisitedKeysResolve(reg: Registry, ctors: ConstructorTable)
    requires reg.Valid()
    ensures AllResolve(Resolver(reg, ctors), KeysOf(reg.Installed())) <==>
      forall t, s :: t in reg.copies && s in reg.copies[t].targets ==>
        Resolve(reg, ctors, reg.copies[t].source, s).Ok?
  {
    var keys := KeysOf(reg.Installed());
    if forall t, s :: t in reg.copies && s in reg.copies[t].targets ==>
        Resolve(reg, ctors, reg.copies[t].source, s).Ok?
    {
      forall i | 0 <= i < |keys|
        ensures Resolve(reg, ctors, keys[i].source, keys[i].target).Ok?
      {
        VisitedKeys(reg, keys[i]);
      }
    } else {
      var t, s :| t in reg.copies && s in reg.copies[t].targets &&
        !Resolve(reg, ctors, reg.copies[t].source, s).Ok?;
      var k := RendererKey(reg.copies[t].source, s);
      assert Declares(reg.copies[t], k);
      VisitedKeys(reg, k);
    }
  }

  /** `getAllRenderers` succeeds exactly when every pair an installed copy declares resolves. */
  lemma CatalogSucceedsIff(reg: Registry, ctors: ConstructorTable)
    requires reg.Valid()
    ensures Catalog(reg, ctors).Ok? <==>
      forall t, s :: t in reg.copies && s in reg.copies[t].targets ==>
        Resolve(reg, ctors, reg.copies[t].source, s).Ok?
  {
    BuildSucceedsIff(Resolver(reg, ctors), EmptyLinkedMap(), KeysOf(reg.Installed()));
    VisitedKeysResolve(reg, ctors);
  }

  /** A failed `getAllRenderers` raises the failure of the first visited pair that does
      not resolve, every pair visited before it having resolved. */
  lemma CatalogFirstError(reg: Registry, ctors: ConstructorTable)
    requires reg.Valid() && Catalog(reg, ctors).Err?
    ensures exists i :: (
      && 0 <= i < |KeysOf(reg.Installed())|
      && var k := KeysOf(reg.Installed())[i];
      && Resolve(reg, ctors, k.source, k.target) == Err(Catalog(reg, ctors).error)
      && forall j :: 0 <= j < i ==>
        Resolve(reg, ctors, KeysOf(reg.Installed())[j].source, KeysOf(reg.Installed())[j].target).Ok?)
  {
    BuildFirstError(Resolver(reg, ctors), EmptyLinkedMap(), KeysOf(reg.Installed()));
  }

  /** A successful `getAllRenderers` is a well-formed map that lists the visited pairs
      once each in first-visit order, so no more of them than the copies have targets. */
  lemma CatalogOrder(reg: Registry, ctors: ConstructorTable, m: LinkedMap<RendererKey, Renderer>)
    requires reg.Valid() && Catalog(reg, ctors) == Ok(m)
    ensures m.Valid()
    ensures m.order == FirstOccurrences(KeysOf(reg.Installed()))
    ensures |m.order| <= TargetCount(reg.Installed())
  {
    var keys := KeysOf(reg.Installed());
    var empty: LinkedMap<RendererKey, Renderer> := EmptyLinkedMap();
    BuildValid(Resolver(reg, ctors), empty, keys, m);
    BuildOrder(Resolver(reg, ctors), empty, keys, m);
    FirstOccurrencesSpec(keys);
    assert empty.order + keys == keys;
  }

  /** A successful `getAllRenderers` holds exactly the pairs the installed copies
      declare, each bound to the renderer `newRenderer` resolves for it. */
  lemma CatalogEntries(reg: Registry, ctors: ConstructorTable, m: LinkedMap<RendererKey, Renderer>)
    requires reg.Valid() && Catalog(reg, ctors) == Ok(m)
    ensures forall k :: k in m.entries <==> exists t :: t in reg.copies && Declares(reg.copies[t], k)
    ensures forall k :: k in m.entries ==> Resolve(reg, ctors, k.source, k.target) == Ok(m.entries[k])
  {
    var keys := KeysOf(reg.Installed());
    BuildEntries(Resolver(reg, ctors), EmptyLinkedMap(), keys, m);
    forall k | true
      ensures k in m.entries <==> exists t :: t in reg.copies && Declares(reg.copies[t], k)
    {
      VisitedKeys(reg, k);
    }
  }

  /** When every copy is installed under its own source and every target has a primary
      constructor, `getAllRenderers` succeeds with exactly one entry per installed copy
      and target. */
  lemma CatalogCoverage(reg: Registry, ctors: ConstructorTable)
    requires reg.Valid() && reg.SourcesMatch() && reg.ConstructorsKnown(ctors)
    ensures Catalog(reg, ctors).Ok?
    ensures forall k :: k in Catalog(reg, ctors).value.entries <==>
      k.source in reg.copies && k.target in reg.copies[k.source].targets
    ensures forall k :: k in Catalog(reg, ctors).value.entries ==>
      Catalog(reg, ctors).value.entries[k] == Resolve(reg, ctors, k.source, k.target).value
  {
    CatalogSucceedsIff(reg, ctors);
    CatalogEntries(reg, ctors, Catalog(reg, ctors).value);
    forall k | true
      ensures (exists t :: t in reg.copies && Declares(reg.copies[t], k)) <==>
        k.source in reg.copies && k.target in reg.copies[k.source].targets
    {
      if k.source in reg.copies && k.target in reg.copies[k.source].targets {
        assert Declares(reg.copies[k.source], k);
      }
    }
  }

  /** A copy installed under a key other than its source, whose source is not itself
      installed, makes `getAllRenderers` fail as soon as it has a target. */
  lemma MismatchedSourceFails(reg: Registry, ctors: ConstructorTable, t: Tag, s: Tag)
    requires reg.Valid() && t in reg.copies && s in reg.copies[t].targets
    requires reg.copies[t].source !in reg.copies
    ensures Catalog(reg, ctors).Err?
  {
    CatalogSucceedsIff(reg, ctors);
  }

  /** The loop over a concatenation runs over the first part and, if that succeeds,
      goes on from where it stopped over the second. */
  lemma {:induction false} BuildAppend(resolve: RendererKey -> Result<Renderer>,
                                       m: LinkedMap<RendererKey, Renderer>, a: seq<RendererKey>, b: seq<RendererKey>)
    ensures Build(resolve, m, a + b) ==
      match Build(resolve, m, a)
      case Err(e) => Err(e)
      case Ok(m') => Build(resolve, m', b)
    decreases |a|
  {
    if a == [] {
      assert a + b == b;
    } else {
      assert (a + b)[0] == a[0] && (a + b)[1..] == a[1..] + b;
      match resolve(a[0])
      case Err(_) =>
      case Ok(renderer) => BuildAppend(resolve, m.Put(a[0], renderer), a[1..], b);
    }
  }

  /** The inner loop of `getAllRenderers`: puts the renderer of every target of one
      installed copy, in target order, stopping at the first failure. */
  method PutCopyRenderers(reg: Registry, ctors: ConstructorTable, documentCopy: DocumentCopy,
                          renderers: LinkedMap<RendererKey, Renderer>)
    returns (r: Result<LinkedMap<RendererKey, Renderer>>)
    ensures r == Build(Resolver(reg, ctors), renderers, TargetKeys(documentCopy))
  {
    var current := renderers;
    var j := 0;
    while j < |documentCopy.targets|
      invariant 0 <= j <= |documentCopy.targets|
      invariant Build(Resolver(reg, ctors), renderers, TargetKeys(documentCopy))
        == Build(Resolver(reg, ctors), current, TargetKeys(documentCopy)[j..])
    {
      var target := documentCopy.targets[j];
      var key := RendererKey(documentCopy.source, target);
      var renderer := NewRenderer(reg, ctors, documentCopy.source, target);
      ghost var todo := TargetKeys(documentCopy)[j..];
      assert todo[0] == key && todo[1..] == TargetKeys(documentCopy)[j + 1..];
      if renderer.Err? {
        return Err(renderer.error);
      }
      current := current.Put(key, renderer.value);
      j := j + 1;
    }
    return Ok(current);
  }

  /** `getAllRenderers`: for each installed copy, for each of its targets,
      `renderers[RendererKey(source, target)] = newRenderer(source, target)`. */
  method GetAllRenderers(reg: Registry, ctors: ConstructorTable) returns (r: Result<LinkedMap<RendererKey, Renderer>>)
    requires reg.Valid()
    ensures r == Catalog(reg, ctors)
  {
    ghost var cs := reg.Installed();
    var renderers := EmptyLinkedMap();
    var i := 0;
    while i < |reg.order|
      invariant 0 <= i <= |reg.order|
      invariant Catalog(reg, ctors) == Build(Resolver(reg, ctors), renderers, KeysOf(cs[i..]))
    {
      var documentCopy := reg.copies[reg.order[i]];
      assert cs[i..][0] == documentCopy && cs[i..][1..] == cs[i + 1..];
      BuildAppend(Resolver(reg, ctors), renderers, TargetKeys(documentCopy), KeysOf(cs[i + 1..]));
      var next := PutCopyRenderers(reg, ctors, documentCopy, renderers);
      if next.Err? {
        return next;
      }
      renderers := next.value;
      i := i + 1;
    }
    assert cs[i..] == [];
    r := Ok(renderers);
  }
}
