/** The object types an API document lists as components, and the references to them. */
module Components {
  import opened Bytes
  import opened Sequences

  /** The types of fields, bodies and results. Classes are known by their identity. */
  datatype Type =
    | ScalarType
    | VoidType
    | OptionalType(of: Type)
    | VectorType(of: Type)
    | ArrayType(of: Type)
    | ExpectedType(of: Type)
    | CreatedType(of: Type)
    | ResponseType(of: Type)
    | TaskType(of: Type)
    | ObjectType(id: string)

  /** The field types of every class; a class may refer to itself. */
  type Classes = map<string, seq<Type>>

  function FieldTypes(classes: Classes, id: string): seq<Type> {
    if id in classes then classes[id] else []
  }

  // --- Collection -------------------------------------------------------------------------

  function Size(t: Type): nat {
    match t
    case ScalarType => 0
    case VoidType => 0
    case ObjectType(_) => 0
    case _ => 1 + Size(t.of)
  }

  function SizeAll(ts: seq<Type>): nat {
    if ts == [] then 0 else 1 + Size(ts[0]) + SizeAll(ts[1..])
  }

  /** The classes that can still be collected. */
  function Left(classes: Classes, list: seq<string>): set<string> {
    classes.Keys - set id | id in list
  }

  lemma LeftShrinks(classes: Classes, list: seq<string>, longer: seq<string>)
    requires list <= longer
    ensures |Left(classes, longer)| <= |Left(classes, list)|
  {
    PrefixMembers(list, longer);
    SubsetSize(Left(classes, longer), Left(classes, list));
  }

  lemma {:induction false} SubsetSize<T>(a: set<T>, b: set<T>)
    requires a <= b
    ensures |a| <= |b|
    decreases a
  {
    if a != {} {
      var x :| x in a;
      SubsetSize(a - {x}, b - {x});
    }
  }

  lemma LeftDrops(classes: Classes, list: seq<string>, id: string)
    requires id in classes && id !in list
    ensures |Left(classes, list + [id])| < |Left(classes, list)|
  {
    assert Left(classes, list + [id]) <= Left(classes, list) - {id};
    SubsetSize(Left(classes, list + [id]), Left(classes, list) - {id});
  }

  /** The list with the object type in `t` and everything behind it, depth first. */
  function Collect(classes: Classes, t: Type, list: seq<string>): (r: seq<string>)
    ensures list <= r
    decreases |Left(classes, list)|, Size(t)
  {
    match t
    case ScalarType => list
    case VoidType => list
    case ObjectType(id) =>
      if id in list then list
      else if id !in classes then list + [id]
      else
        LeftDrops(classes, list, id);
        CollectAll(classes, classes[id], list + [id])
    case _ => Collect(classes, t.of, list)
  }

  function CollectAll(classes: Classes, ts: seq<Type>, list: seq<string>): (r: seq<string>)
    ensures list <= r
    decreases |Left(classes, list)|, SizeAll(ts)
  {
    if ts == [] then list
    else
      var first := Collect(classes, ts[0], list);
      LeftShrinks(classes, list, first);
      CollectAll(classes, ts[1..], first)
  }

  /** The components of an API whose bodies and results have these types, in endpoint order. */
  function ComponentsOf(classes: Classes, roots: seq<Type>): seq<string> {
    CollectAll(classes, roots, [])
  }

  // --- What is collected ------------------------------------------------------------------

  /** The class inside the wrappers. */
  function Head(t: Type): Option<string> {
    match t
    case ScalarType => None
    case VoidType => None
    case ObjectType(id) => Some(id)
    case _ => Head(t.of)
  }

  predicate Mentions(ts: seq<Type>, id: string) {
    exists k | 0 <= k < |ts| :: Head(ts[k]) == Some(id)
  }

  predicate Refers(classes: Classes, from: string, to: string) {
    Mentions(FieldTypes(classes, from), to)
  }

  /** A chain of classes, each with a field of the next. */
  predicate Chain(classes: Classes, path: seq<string>) {
    path != [] && forall k | 0 <= k < |path| - 1 :: Refers(classes, path[k], path[k + 1])
  }

  ghost predicate Reaches(classes: Classes, from: string, to: string) {
    exists path :: Chain(classes, path) && path[0] == from && path[|path| - 1] == to
  }

  /** Reachable from one of the types. */
  ghost predicate Reachable(classes: Classes, roots: seq<Type>, id: string) {
    exists root :: Mentions(roots, root) && Reaches(classes, root, id)
  }

  lemma NoDuplicatesSnoc(list: seq<string>, id: string)
    requires NoDuplicates(list) && id !in list
    ensures NoDuplicates(list + [id])
  {
  }

  lemma {:induction false} CollectNoDuplicates(classes: Classes, t: Type, list: seq<string>)
    requires NoDuplicates(list)
    ensures NoDuplicates(Collect(classes, t, list))
    decreases |Left(classes, list)|, Size(t)
  {
    hide NoDuplicates, Left;
    match t
    case ScalarType =>
    case VoidType =>
    case ObjectType(id) =>
      if id !in list {
        NoDuplicatesSnoc(list, id);
        if id in classes {
          LeftDrops(classes, list, id);
          CollectAllNoDuplicates(classes, classes[id], list + [id]);
        }
      }
    case _ => CollectNoDuplicates(classes, t.of, list);
  }

  lemma {:induction false} CollectAllNoDuplicates(classes: Classes, ts: seq<Type>, list: seq<string>)
    requires NoDuplicates(list)
    ensures NoDuplicates(CollectAll(classes, ts, list))
    decreases |Left(classes, list)|, SizeAll(ts)
  {
    hide NoDuplicates, Left;
    if ts != [] {
      var first := Collect(classes, ts[0], list);
      CollectNoDuplicates(classes, ts[0], list);
      LeftShrinks(classes, list, first);
      CollectAllNoDuplicates(classes, ts[1..], first);
    }
  }

  /** Every class that `id` refers to is in the list. */
  predicate Served(classes: Classes, list: seq<string>, id: string) {
    forall k | 0 <= k < |FieldTypes(classes, id)| ::
      var head := Head(FieldTypes(classes, id)[k]); head.Some? ==> head.value in list
  }

  /** Everything that was added has what it refers to in the list. */
  predicate ServedBeyond(classes: Classes, list: seq<string>, r: seq<string>) {
    forall id | id in r && id !in list :: Served(classes, r, id)
  }

  lemma ServedMono(classes: Classes, list: seq<string>, longer: seq<string>, id: string)
    requires Served(classes, list, id) && list <= longer
    ensures Served(classes, longer, id)
  {
    PrefixMembers(list, longer);
  }

  lemma ServedJoin(classes: Classes, list: seq<string>, middle: seq<string>, r: seq<string>)
    requires list <= middle <= r
    requires ServedBeyond(classes, list, middle) && ServedBeyond(classes, middle, r)
    ensures ServedBeyond(classes, list, r)
  {
    hide Served;
    forall id | id in r && id !in list ensures Served(classes, r, id) {
      if id in middle {
        ServedMono(classes, middle, r, id);
      }
    }
  }

  predicate HeadsIn(ts: seq<Type>, list: seq<string>) {
    forall k | 0 <= k < |ts| :: Head(ts[k]).Some? ==> Head(ts[k]).value in list
  }

  lemma {:induction false} CollectServes(classes: Classes, t: Type, list: seq<string>)
    ensures Head(t).Some? ==> Head(t).value in Collect(classes, t, list)
    ensures ServedBeyond(classes, list, Collect(classes, t, list))
    decreases |Left(classes, list)|, Size(t), 1
  {
    hide Left;
    match t
    case ScalarType =>
    case VoidType =>
    case ObjectType(id) =>
      if id !in list {
        CollectObjectServes(classes, id, list);
      }
    case _ => CollectServes(classes, t.of, list);
  }

  lemma {:induction false} CollectObjectServes(classes: Classes, id: string, list: seq<string>)
    requires id !in list
    ensures var r := Collect(classes, ObjectType(id), list); id in r && ServedBeyond(classes, list, r)
    decreases |Left(classes, list)|, 0, 0
  {
    hide Left;
    var r := Collect(classes, ObjectType(id), list);
    PrefixMembers(list + [id], r);
    assert id in list + [id];
    if id in classes {
      LeftDrops(classes, list, id);
      CollectAllServes(classes, classes[id], list + [id]);
      assert Served(classes, r, id);
    }
  }

  lemma {:induction false} CollectAllServes(classes: Classes, ts: seq<Type>, list: seq<string>)
    ensures HeadsIn(ts, CollectAll(classes, ts, list))
    ensures ServedBeyond(classes, list, CollectAll(classes, ts, list))
    decreases |Left(classes, list)|, SizeAll(ts), 0
  {
    hide Left, Served, ServedBeyond;
    if ts == [] {
      NothingBeyond(classes, list);
    } else {
      var first := Collect(classes, ts[0], list);
      var all := CollectAll(classes, ts[1..], first);
      CollectServes(classes, ts[0], list);
      LeftShrinks(classes, list, first);
      CollectAllServes(classes, ts[1..], first);
      ServedJoin(classes, list, first, all);
      PrefixMembers(first, all);
      assert forall k | 1 <= k < |ts| :: ts[k] == ts[1..][k - 1];
    }
  }

  lemma NothingBeyond(classes: Classes, list: seq<string>)
    ensures ServedBeyond(classes, list, list)
  {
  }

  /** Everything that was added is reachable from the types it was collected for. */
  lemma {:induction false} CollectReaches(classes: Classes, t: Type, list: seq<string>, id: string)
    requires id in Collect(classes, t, list) && id !in list
    ensures Head(t).Some? && Reaches(classes, Head(t).value, id)
    decreases |Left(classes, list)|, Size(t)
  {
    hide Left, Reaches;
    match t
    case ScalarType =>
    case VoidType =>
    case ObjectType(root) =>
      if id == root {
        ReachesItself(classes, id);
      } else {
        LeftDrops(classes, list, root);
        var next := CollectAllReaches(classes, classes[root], list + [root], id);
        ReachesThrough(classes, root, next, id);
      }
    case _ => CollectReaches(classes, t.of, list, id);
  }

  lemma {:induction false} CollectAllReaches(classes: Classes, ts: seq<Type>, list: seq<string>, id: string)
    returns (root: string)
    requires id in CollectAll(classes, ts, list) && id !in list
    ensures Mentions(ts, root) && Reaches(classes, root, id)
    decreases |Left(classes, list)|, SizeAll(ts)
  {
    hide Left, Reaches;
    var first := Collect(classes, ts[0], list);
    LeftShrinks(classes, list, first);
    if id in first {
      CollectReaches(classes, ts[0], list, id);
      root := Head(ts[0]).value;
    } else {
      root := CollectAllReaches(classes, ts[1..], first, id);
      var k :| 0 <= k < |ts[1..]| && Head(ts[1..][k]) == Some(root);
      assert Head(ts[k + 1]) == Some(root);
    }
  }

  lemma ReachesItself(classes: Classes, id: string)
    ensures Reaches(classes, id, id)
  {
    assert Chain(classes, [id]);
  }

  lemma ReachesThrough(classes: Classes, from: string, next: string, to: string)
    requires Refers(classes, from, next) && Reaches(classes, next, to)
    ensures Reaches(classes, from, to)
  {
    hide Refers;
    var path :| Chain(classes, path) && path[0] == next && path[|path| - 1] == to;
    var longer := [from] + path;
    assert forall k | 1 <= k < |longer| :: longer[k] == path[k - 1];
    assert Chain(classes, longer);
  }

  lemma {:induction false} ChainStays(classes: Classes, list: seq<string>, path: seq<string>)
    requires forall id | id in list :: Served(classes, list, id)
    requires Chain(classes, path) && path[0] in list
    ensures path[|path| - 1] in list
  {
    if |path| > 1 {
      assert Refers(classes, path[0], path[1]);
      assert Served(classes, list, path[0]);
      assert forall k | 0 <= k < |path[1..]| - 1 :: Refers(classes, path[1..][k], path[1..][k + 1]) by {
        forall k | 0 <= k < |path[1..]| - 1 ensures Refers(classes, path[1..][k], path[1..][k + 1]) {
          assert Refers(classes, path[k + 1], path[k + 2]);
        }
      }
      ChainStays(classes, list, path[1..]);
    }
  }

  lemma ClosedUnderReach(classes: Classes, list: seq<string>, from: string, to: string)
    requires forall id | id in list :: Served(classes, list, id)
    requires from in list && Reaches(classes, from, to)
    ensures to in list
  {
    hide Served;
    var path :| Chain(classes, path) && path[0] == from && path[|path| - 1] == to;
    ChainStays(classes, list, path);
  }

  /** The components are exactly the classes reachable from the bodies and results, each listed once. */
  lemma ComponentsAreTheReachable(classes: Classes, roots: seq<Type>, id: string)
    ensures NoDuplicates(ComponentsOf(classes, roots))
    ensures id in ComponentsOf(classes, roots) <==> Reachable(classes, roots, id)
  {
    hide Served, Head, Reaches;
    var list := ComponentsOf(classes, roots);
    CollectAllNoDuplicates(classes, roots, []);
    CollectAllServes(classes, roots, []);
    if id in list {
      var root := CollectAllReaches(classes, roots, [], id);
    }
    if root :| Mentions(roots, root) && Reaches(classes, root, id) {
      ClosedUnderReach(classes, list, root, id);
    }
  }

  // --- References -------------------------------------------------------------------------

  /** The types that the schema of `t` refers to. A response wrapper there is an aggregate like any other. */
  function SchemaRefs(t: Type): seq<Type> {
    match t
    case OptionalType(of) => SchemaRefs(of)
    case VectorType(of) => SchemaRefs(of)
    case ArrayType(of) => SchemaRefs(of)
    case ObjectType(_) => [t]
    case CreatedType(_) => [t]
    case ResponseType(_) => [t]
    case _ => []
  }

  /** The references in the success response: tasks and expected results are stripped, then one wrapper. */
  function ResultRefs(t: Type, special: set<string>): seq<Type> {
    match t
    case TaskType(of) => ResultRefs(of, special)
    case ExpectedType(of) => ResultRefs(of, special)
    case CreatedType(of) => SchemaRefs(of)
    case ResponseType(of) => SchemaRefs(of)
    case ObjectType(id) => if id in special then [] else [t]
    case _ => SchemaRefs(t)
  }

  datatype Operation = Operation(bodies: seq<Type>, result: Type)

  /** The bodies and the result of each endpoint, in order. */
  function Roots(operations: seq<Operation>): seq<Type> {
    if operations == [] then []
    else operations[0].bodies + [operations[0].result] + Roots(operations[1..])
  }

  /** The document holds a reference to `ref`; `special` are the result types printed without a schema. */
  predicate Emitted(classes: Classes, operations: seq<Operation>, special: set<string>, ref: Type) {
    || (exists k | 0 <= k < |operations| ::
          || ref in ResultRefs(operations[k].result, special)
          || exists b | 0 <= b < |operations[k].bodies| :: ref in SchemaRefs(operations[k].bodies[b]))
    || (exists c | 0 <= c < |ComponentsOf(classes, Roots(operations))| ::
          var fields := FieldTypes(classes, ComponentsOf(classes, Roots(operations))[c]);
          exists f | 0 <= f < |fields| :: ref in SchemaRefs(fields[f]))
  }

  predicate Resolves(classes: Classes, operations: seq<Operation>, ref: Type) {
    ref.ObjectType? && ref.id in ComponentsOf(classes, Roots(operations))
  }

  lemma {:induction false} SchemaRefIsHead(t: Type, ref: Type)
    requires ref in SchemaRefs(t) && ref.ObjectType?
    ensures Head(t) == Some(ref.id)
  {
    match t
    case OptionalType(of) => SchemaRefIsHead(of, ref);
    case VectorType(of) => SchemaRefIsHead(of, ref);
    case ArrayType(of) => SchemaRefIsHead(of, ref);
    case _ =>
  }

  lemma {:induction false} ResultRefIsHead(t: Type, special: set<string>, ref: Type)
    requires ref in ResultRefs(t, special) && ref.ObjectType?
    ensures Head(t) == Some(ref.id)
  {
    match t
    case TaskType(of) => ResultRefIsHead(of, special, ref);
    case ExpectedType(of) => ResultRefIsHead(of, special, ref);
    case CreatedType(of) => SchemaRefIsHead(of, ref);
    case ResponseType(of) => SchemaRefIsHead(of, ref);
    case ObjectType(_) =>
    case _ => SchemaRefIsHead(t, ref);
  }

  lemma {:induction false} RootsHold(operations: seq<Operation>, k: nat, t: Type)
    requires k < |operations| && (t == operations[k].result || t in operations[k].bodies)
    ensures t in Roots(operations)
  {
    if k > 0 {
      RootsHold(operations[1..], k - 1, t);
    }
  }

  lemma HeadIsListed(classes: Classes, ts: seq<Type>, t: Type, id: string)
    requires t in ts && Head(t) == Some(id)
    ensures id in ComponentsOf(classes, ts)
  {
    CollectAllServes(classes, ts, []);
    var k :| 0 <= k < |ts| && ts[k] == t;
  }

  lemma FieldHeadIsListed(classes: Classes, roots: seq<Type>, id: string, f: nat)
    requires id in ComponentsOf(classes, roots) && f < |FieldTypes(classes, id)|
    ensures var head := Head(FieldTypes(classes, id)[f]); head.Some? ==> head.value in ComponentsOf(classes, roots)
  {
    hide Head;
    CollectAllServes(classes, roots, []);
    assert Served(classes, ComponentsOf(classes, roots), id);
  }

  /** A reference in the document resolves exactly when it does not refer to a response wrapper. */
  lemma RefResolvesIff(classes: Classes, operations: seq<Operation>, special: set<string>, ref: Type)
    requires Emitted(classes, operations, special, ref)
    ensures Resolves(classes, operations, ref) <==> ref.ObjectType?
  {
    hide Head, ComponentsOf, SchemaRefs, ResultRefs;
    var roots := Roots(operations);
    if ref.ObjectType? {
      if k :| 0 <= k < |operations| && ref in ResultRefs(operations[k].result, special) {
        ResultRefIsHead(operations[k].result, special, ref);
        RootsHold(operations, k, operations[k].result);
        HeadIsListed(classes, roots, operations[k].result, ref.id);
      } else if k, b :| 0 <= k < |operations| && 0 <= b < |operations[k].bodies|
                        && ref in SchemaRefs(operations[k].bodies[b]) {
        SchemaRefIsHead(operations[k].bodies[b], ref);
        RootsHold(operations, k, operations[k].bodies[b]);
        HeadIsListed(classes, roots, operations[k].bodies[b], ref.id);
      } else {
        var c, f :| && 0 <= c < |ComponentsOf(classes, roots)|
                    && 0 <= f < |FieldTypes(classes, ComponentsOf(classes, roots)[c])|
                    && ref in SchemaRefs(FieldTypes(classes, ComponentsOf(classes, roots)[c])[f]);
        var id := ComponentsOf(classes, roots)[c];
        SchemaRefIsHead(FieldTypes(classes, id)[f], ref);
        FieldHeadIsListed(classes, roots, id, f);
      }
    }
  }

  /** No response wrapper inside, so every reference is to an object type. */
  predicate Bare(t: Type) {
    match t
    case OptionalType(of) => Bare(of)
    case VectorType(of) => Bare(of)
    case ArrayType(of) => Bare(of)
    case CreatedType(_) => false
    case ResponseType(_) => false
    case _ => true
  }

  /** A response wrapper only inside tasks and expected results. */
  predicate WrapperOutermost(t: Type) {
    match t
    case TaskType(of) => WrapperOutermost(of)
    case ExpectedType(of) => WrapperOutermost(of)
    case CreatedType(of) => Bare(of)
    case ResponseType(of) => Bare(of)
    case _ => Bare(t)
  }

  lemma {:induction false} BareRefs(t: Type)
    ensures Bare(t) <==> forall ref | ref in SchemaRefs(t) :: ref.ObjectType?
  {
    match t
    case OptionalType(of) =>
      BareRefs(of);
      assert SchemaRefs(t) == SchemaRefs(of);
    case VectorType(of) =>
      BareRefs(of);
      assert SchemaRefs(t) == SchemaRefs(of);
    case ArrayType(of) =>
      BareRefs(of);
      assert SchemaRefs(t) == SchemaRefs(of);
    case ObjectType(_) =>
    case CreatedType(_) => assert SchemaRefs(t) == [t] && t in SchemaRefs(t);
    case ResponseType(_) => assert SchemaRefs(t) == [t] && t in SchemaRefs(t);
    case _ => assert SchemaRefs(t) == [];
  }

  lemma {:induction false} OutermostRefs(t: Type, special: set<string>)
    ensures WrapperOutermost(t) <==> forall ref | ref in ResultRefs(t, special) :: ref.ObjectType?
  {
    match t
    case TaskType(of) =>
      OutermostRefs(of, special);
      assert ResultRefs(t, special) == ResultRefs(of, special);
    case ExpectedType(of) =>
      OutermostRefs(of, special);
      assert ResultRefs(t, special) == ResultRefs(of, special);
    case CreatedType(of) =>
      BareRefs(of);
      assert ResultRefs(t, special) == SchemaRefs(of);
    case ResponseType(of) =>
      BareRefs(of);
      assert ResultRefs(t, special) == SchemaRefs(of);
    case ObjectType(_) =>
    case _ => BareRefs(t);
  }

  /** Wrappers stand only outermost in results: not in bodies, and not in the fields of any component. */
  predicate WrappersWellPlaced(classes: Classes, operations: seq<Operation>) {
    && (forall k | 0 <= k < |operations| :: WrapperOutermost(operations[k].result))
    && (forall k, b | 0 <= k < |operations| && 0 <= b < |operations[k].bodies| :: Bare(operations[k].bodies[b]))
    && (forall c, f | && 0 <= c < |ComponentsOf(classes, Roots(operations))|
                      && 0 <= f < |FieldTypes(classes, ComponentsOf(classes, Roots(operations))[c])| ::
          Bare(FieldTypes(classes, ComponentsOf(classes, Roots(operations))[c])[f]))
  }

  /** Every reference in the document resolves if and only if response wrappers stand only outermost in results. */
  lemma AllRefsResolveIff(classes: Classes, operations: seq<Operation>, special: set<string>)
    ensures WrappersWellPlaced(classes, operations)
            <==> forall ref | Emitted(classes, operations, special, ref) :: Resolves(classes, operations, ref)
  {
    hide Emitted, Resolves, WrappersWellPlaced;
    if WrappersWellPlaced(classes, operations) {
      forall ref | Emitted(classes, operations, special, ref) ensures Resolves(classes, operations, ref) {
        WellPlacedRef(classes, operations, special, ref);
        RefResolvesIff(classes, operations, special, ref);
      }
    } else {
      var ref := MisplacedRef(classes, operations, special);
      RefResolvesIff(classes, operations, special, ref);
    }
  }

  lemma WellPlacedRef(classes: Classes, operations: seq<Operation>, special: set<string>, ref: Type)
    requires WrappersWellPlaced(classes, operations) && Emitted(classes, operations, special, ref)
    ensures ref.ObjectType?
  {
    hide ComponentsOf, SchemaRefs, ResultRefs, Bare, WrapperOutermost;
    var roots := Roots(operations);
    if k :| 0 <= k < |operations| && ref in ResultRefs(operations[k].result, special) {
      OutermostRefs(operations[k].result, special);
    } else if k, b :| 0 <= k < |operations| && 0 <= b < |operations[k].bodies|
                      && ref in SchemaRefs(operations[k].bodies[b]) {
      BareRefs(operations[k].bodies[b]);
    } else {
      var c, f :| && 0 <= c < |ComponentsOf(classes, roots)|
                  && 0 <= f < |FieldTypes(classes, ComponentsOf(classes, roots)[c])|
                  && ref in SchemaRefs(FieldTypes(classes, ComponentsOf(classes, roots)[c])[f]);
      BareRefs(FieldTypes(classes, ComponentsOf(classes, roots)[c])[f]);
    }
  }

  lemma MisplacedRef(classes: Classes, operations: seq<Operation>, special: set<string>) returns (ref: Type)
    requires !WrappersWellPlaced(classes, operations)
    ensures Emitted(classes, operations, special, ref) && !ref.ObjectType?
  {
    hide ComponentsOf, SchemaRefs, ResultRefs, Bare, WrapperOutermost;
    var roots := Roots(operations);
    if k :| 0 <= k < |operations| && !WrapperOutermost(operations[k].result) {
      OutermostRefs(operations[k].result, special);
      ref :| ref in ResultRefs(operations[k].result, special) && !ref.ObjectType?;
    } else if k, b :| 0 <= k < |operations| && 0 <= b < |operations[k].bodies| && !Bare(operations[k].bodies[b]) {
      BareRefs(operations[k].bodies[b]);
      ref :| ref in SchemaRefs(operations[k].bodies[b]) && !ref.ObjectType?;
    } else {
      var c, f :| && 0 <= c < |ComponentsOf(classes, roots)|
                  && 0 <= f < |FieldTypes(classes, ComponentsOf(classes, roots)[c])|
                  && !Bare(FieldTypes(classes, ComponentsOf(classes, roots)[c])[f]);
      BareRefs(FieldTypes(classes, ComponentsOf(classes, roots)[c])[f]);
      ref :| ref in SchemaRefs(FieldTypes(classes, ComponentsOf(classes, roots)[c])[f]) && !ref.ObjectType?;
    }
  }

  /** A document with a reference that nothing answers: an endpoint that returns an optional wrapper. */
  lemma DanglingReference(special: set<string>)
    ensures var wrapper := CreatedType(ObjectType("Widget"));
            var operations := [Operation([], OptionalType(wrapper))];
            && Emitted(map[], operations, special, wrapper) && !Resolves(map[], operations, wrapper)
            && ComponentsOf(map[], Roots(operations)) == ["Widget"]
            && !WrappersWellPlaced(map[], operations)
  {
    var wrapper := CreatedType(ObjectType("Widget"));
    var operations := [Operation([], OptionalType(wrapper))];
    assert operations[0].result == OptionalType(wrapper);
    assert SchemaRefs(OptionalType(wrapper)) == SchemaRefs(wrapper) == [wrapper];
    assert wrapper in ResultRefs(operations[0].result, special);
    assert !Bare(OptionalType(wrapper)) && !WrapperOutermost(operations[0].result);
    assert operations[1..] == [];
    assert Roots(operations) == [OptionalType(wrapper)];
    assert Collect(map[], ObjectType("Widget"), []) == ["Widget"];
    assert Collect(map[], wrapper, []) == ["Widget"];
    assert Collect(map[], OptionalType(wrapper), []) == ["Widget"];
    assert Roots(operations)[1..] == [] && Roots(operations)[0] == OptionalType(wrapper);
    assert CollectAll(map[], [], ["Widget"]) == ["Widget"];
    assert CollectAll(map[], Roots(operations), []) == CollectAll(map[], [], Collect(map[], OptionalType(wrapper), []));
  }

  // --- Names ------------------------------------------------------------------------------

  /** The pairwise check of component names, from the pair `left`, `right` on. */
  predicate NamesUniqueFrom(names: seq<string>, left: nat, right: nat)
    requires left < right
    decreases |names| - left, |names| - right
  {
    if left >= |names| then true
    else if right >= |names| then NamesUniqueFrom(names, left + 1, left + 2)
    else if names[left] == names[right] then false
    else NamesUniqueFrom(names, left, right + 1)
  }

  lemma {:induction false} NamesUniqueFromIff(names: seq<string>, left: nat, right: nat)
    requires left < right
    ensures NamesUniqueFrom(names, left, right)
            <==> && (forall j | right <= j < |names| :: left < |names| ==> names[left] != names[j])
                 && (forall i, j | left < i < j < |names| :: names[i] != names[j])
    decreases |names| - left, |names| - right
  {
    if left < |names| {
      if right >= |names| {
        NamesUniqueFromIff(names, left + 1, left + 2);
      } else if names[left] != names[right] {
        NamesUniqueFromIff(names, left, right + 1);
      }
    }
  }

  function NamesOf(list: seq<string>, names: map<string, string>): (r: seq<string>)
    requires forall id | id in list :: id in names
    ensures |r| == |list| && forall k | 0 <= k < |list| :: r[k] == names[list[k]]
  {
    seq(|list|, k requires 0 <= k < |list| => names[list[k]])
  }

  /** With validated names, each reference names exactly one component. */
  lemma RefNamesOneComponent(
    classes: Classes, operations: seq<Operation>, special: set<string>, names: map<string, string>, ref: Type)
    returns (c: nat)
    requires WrappersWellPlaced(classes, operations) && Emitted(classes, operations, special, ref)
    requires forall id | id in ComponentsOf(classes, Roots(operations)) :: id in names
    requires NamesUniqueFrom(NamesOf(ComponentsOf(classes, Roots(operations)), names), 0, 1)
    ensures ref.ObjectType? && c < |ComponentsOf(classes, Roots(operations))|
    ensures ComponentsOf(classes, Roots(operations))[c] == ref.id && ref.id in names
    ensures forall d | 0 <= d < |ComponentsOf(classes, Roots(operations))| ::
              NamesOf(ComponentsOf(classes, Roots(operations)), names)[d] == names[ref.id] <==> d == c
  {
    hide Emitted, WrappersWellPlaced, ComponentsOf;
    var list := ComponentsOf(classes, Roots(operations));
    WellPlacedRef(classes, operations, special, ref);
    RefResolvesIff(classes, operations, special, ref);
    c :| 0 <= c < |list| && list[c] == ref.id;
    NamesUniqueFromIff(NamesOf(list, names), 0, 1);
  }

  // --- Every component is referred to -----------------------------------------------------

  /** Types with a schema of their own: no response wrapper, task or expected value inside. */
  predicate Data(t: Type) {
    match t
    case OptionalType(of) => Data(of)
    case VectorType(of) => Data(of)
    case ArrayType(of) => Data(of)
    case ScalarType => true
    case ObjectType(_) => true
    case _ => false
  }

  /** Data or nothing, in at most one wrapper, inside tasks and expected values. */
  predicate ResultData(t: Type) {
    match t
    case TaskType(of) => ResultData(of)
    case ExpectedType(of) => ResultData(of)
    case CreatedType(of) => Data(of)
    case ResponseType(of) => Data(of)
    case VoidType => true
    case _ => Data(t)
  }

  /** The schema of a data type refers to the object type inside, once, and to nothing else. */
  lemma {:induction false} DataRefs(t: Type)
    requires Data(t)
    ensures SchemaRefs(t) == if Head(t).None? then [] else [ObjectType(Head(t).value)]
  {
    match t
    case OptionalType(of) => DataRefs(of);
    case VectorType(of) => DataRefs(of);
    case ArrayType(of) => DataRefs(of);
    case _ =>
  }

  /** What a task or an expected value yields. */
  function Yielded(t: Type): Type {
    match t
    case TaskType(of) => Yielded(of)
    case ExpectedType(of) => Yielded(of)
    case _ => t
  }

  /** So does the success response, except for result types that are printed without a schema. */
  lemma {:induction false} ResultDataRefs(t: Type, special: set<string>)
    requires ResultData(t)
    ensures ResultRefs(t, special)
         == if Head(t).None? || (Yielded(t).ObjectType? && Yielded(t).id in special) then []
            else [ObjectType(Head(t).value)]
    ensures Yielded(t).ObjectType? ==> Head(t) == Some(Yielded(t).id)
  {
    match t
    case TaskType(of) => ResultDataRefs(of, special);
    case ExpectedType(of) => ResultDataRefs(of, special);
    case CreatedType(of) => DataRefs(of);
    case ResponseType(of) => DataRefs(of);
    case ObjectType(_) =>
    case VoidType =>
    case _ => DataRefs(t);
  }

  predicate AllData(classes: Classes, operations: seq<Operation>) {
    && (forall k | 0 <= k < |operations| :: ResultData(operations[k].result))
    && (forall k, b | 0 <= k < |operations| && 0 <= b < |operations[k].bodies| :: Data(operations[k].bodies[b]))
    && (forall id, f | id in classes && 0 <= f < |classes[id]| :: Data(classes[id][f]))
  }

  lemma {:induction false} RootOf(operations: seq<Operation>, t: Type) returns (k: nat)
    requires t in Roots(operations)
    ensures k < |operations| && (t == operations[k].result || t in operations[k].bodies)
  {
    if t in operations[0].bodies || t == operations[0].result {
      k := 0;
    } else {
      k := RootOf(operations[1..], t);
      k := k + 1;
    }
  }

  lemma RootIsReferred(classes: Classes, operations: seq<Operation>, special: set<string>, id: string)
    requires AllData(classes, operations) && Mentions(Roots(operations), id)
    ensures Emitted(classes, operations, special, ObjectType(id)) || id in special
  {
    hide ComponentsOf, SchemaRefs, ResultRefs, Data, ResultData;
    var r :| 0 <= r < |Roots(operations)| && Head(Roots(operations)[r]) == Some(id);
    var t := Roots(operations)[r];
    var k := RootOf(operations, t);
    if t == operations[k].result {
      ResultDataRefs(t, special);
      assert ObjectType(id) in ResultRefs(operations[k].result, special) || id in special;
    } else {
      var b :| 0 <= b < |operations[k].bodies| && operations[k].bodies[b] == t;
      DataRefs(t);
      assert ObjectType(id) in SchemaRefs(operations[k].bodies[b]);
    }
  }

  lemma FieldIsReferred(classes: Classes, operations: seq<Operation>, special: set<string>, from: string, id: string)
    requires AllData(classes, operations)
    requires from in ComponentsOf(classes, Roots(operations)) && Refers(classes, from, id)
    ensures Emitted(classes, operations, special, ObjectType(id))
  {
    hide ComponentsOf, SchemaRefs, ResultRefs, Data, ResultData;
    var list := ComponentsOf(classes, Roots(operations));
    var c :| 0 <= c < |list| && list[c] == from;
    var f :| 0 <= f < |FieldTypes(classes, from)| && Head(FieldTypes(classes, from)[f]) == Some(id);
    DataRefs(FieldTypes(classes, from)[f]);
    assert ObjectType(id) in SchemaRefs(FieldTypes(classes, list[c])[f]);
  }

  /** The document refers to every component it lists, except to those of results printed without a schema. */
  lemma EveryComponentIsReferred(classes: Classes, operations: seq<Operation>, special: set<string>, id: string)
    requires AllData(classes, operations) && id in ComponentsOf(classes, Roots(operations))
    ensures Emitted(classes, operations, special, ObjectType(id)) || id in special
  {
    hide ComponentsOf, Emitted, AllData, Refers;
    var roots := Roots(operations);
    ComponentsAreTheReachable(classes, roots, id);
    var root :| Mentions(roots, root) && Reaches(classes, root, id);
    var path :| Chain(classes, path) && path[0] == root && path[|path| - 1] == id;
    if |path| == 1 {
      RootIsReferred(classes, operations, special, id);
    } else {
      var before := path[..|path| - 1];
      var from := before[|before| - 1];
      assert Refers(classes, path[|path| - 2], path[|path| - 1]);
      assert Chain(classes, before) && before[0] == root;
      ComponentsAreTheReachable(classes, roots, from);
      FieldIsReferred(classes, operations, special, from, id);
    }
  }
}
