/** Row values, path replacement and masking policies. */
module Masking {
  import opened Bytes

  datatype Value =
    | Null
    | Bool(truth: bool)
    | Int(number: int)
    | Float(fraction: real)
    | Str(text: string)
    | Blob(bytes: Bytes)
    | Array(items: seq<Value>)
    | Object(fields: map<string, Value>)
    | Vector(components: seq<real>)
    | GeoPoint(lon: real, lat: real)

  type Path = seq<string>

  type Resource = string

  datatype Mask = Mask(resource: Resource, paths: seq<Path>, replacement: Value)

  /** One replacement of a masking policy. */
  datatype Op = Op(path: Path, replacement: Value)

  /** The value at a path through objects, if there is one. */
  function ExtractPath(value: Value, path: Path): Option<Value>
    decreases |path|
  {
    if path == [] then Some(value)
    else if value.Object? && path[0] in value.fields then ExtractPath(value.fields[path[0]], path[1..])
    else None
  }

  predicate HoldsField(value: Value, field: string, inner: Value) {
    value.Object? && field in value.fields && value.fields[field] == inner
  }

  /** Values from one to another, each the field of the one before that the path names. */
  ghost predicate Trail(steps: seq<Value>, value: Value, path: Path, found: Value) {
    && |steps| == |path| + 1 && steps[0] == value && steps[|path|] == found
    && forall i :: 0 <= i < |path| ==> HoldsField(steps[i], path[i], steps[i + 1])
  }

  /** The path leads from the value, through objects, to what it finds. */
  ghost predicate Leads(value: Value, path: Path, found: Value) {
    exists steps :: Trail(steps, value, path, found)
  }

  lemma TrailGoesOn(steps: seq<Value>, value: Value, path: Path, found: Value)
    requires path != [] && Trail(steps, value, path, found)
    ensures |steps| > 1 && HoldsField(value, path[0], steps[1]) && Trail(steps[1..], steps[1], path[1..], found)
  {
    hide HoldsField;
    assert HoldsField(steps[0], path[0], steps[0 + 1]);
    var rest := steps[1..];
    forall i | 0 <= i < |path| - 1 ensures HoldsField(rest[i], path[1..][i], rest[i + 1]) {
      assert HoldsField(steps[i + 1], path[i + 1], steps[i + 1 + 1]);
    }
  }

  lemma TrailBegins(rest: seq<Value>, value: Value, inner: Value, path: Path, found: Value)
    requires path != [] && HoldsField(value, path[0], inner) && Trail(rest, inner, path[1..], found)
    ensures Trail([value] + rest, value, path, found)
  {
    hide HoldsField;
    var steps := [value] + rest;
    forall i | 0 <= i < |path| ensures HoldsField(steps[i], path[i], steps[i + 1]) {
      if i > 0 {
        assert HoldsField(rest[i - 1], path[1..][i - 1], rest[i - 1 + 1]);
      }
    }
  }

  /** Extracting a path finds what it leads to, and nothing where it leads nowhere. */
  lemma {:induction false} ExtractFollowsPath(value: Value, path: Path, found: Value)
    ensures ExtractPath(value, path) == Some(found) <==> Leads(value, path, found)
    decreases |path|
  {
    hide Trail;
    if path == [] {
      StandingStill(value, found);
    } else {
      if value.Object? && path[0] in value.fields {
        ExtractFollowsPath(value.fields[path[0]], path[1..], found);
      }
      if ExtractPath(value, path) == Some(found) {
        var rest :| Trail(rest, value.fields[path[0]], path[1..], found);
        TrailBegins(rest, value, value.fields[path[0]], path, found);
      }
      if Leads(value, path, found) {
        var steps :| Trail(steps, value, path, found);
        TrailGoesOn(steps, value, path, found);
        assert Leads(steps[1], path[1..], found);
      }
    }
  }

  lemma StandingStill(value: Value, found: Value)
    ensures Leads(value, [], found) <==> value == found
  {
    if value == found {
      assert Trail([value], value, [], found);
    }
  }

  /** Replaces what stands at the path, when something does. */
  function ReplacePath(value: Value, path: Path, replacement: Value): Value
    decreases |path|
  {
    if path == [] then replacement
    else if value.Object? && path[0] in value.fields
    then Object(value.fields[path[0] := ReplacePath(value.fields[path[0]], path[1..], replacement)])
    else value
  }

  function Apply(value: Value, ops: seq<Op>): Value {
    if ops == [] then value
    else
      var last := ops[|ops| - 1];
      ReplacePath(Apply(value, ops[..|ops| - 1]), last.path, last.replacement)
  }

  function PolicyOps(mask: Mask): seq<Op> {
    seq(|mask.paths|, i requires 0 <= i < |mask.paths| => Op(mask.paths[i], mask.replacement))
  }

  /** All replacements for a resource, in the order in which they are made. */
  function OpsFor(masks: seq<Mask>, resource: Resource): seq<Op> {
    if masks == [] then []
    else
      var rest, last := masks[..|masks| - 1], masks[|masks| - 1];
      OpsFor(rest, resource) + if last.resource == resource then PolicyOps(last) else []
  }

  lemma {:induction false} ApplyJoins(value: Value, first: seq<Op>, second: seq<Op>)
    ensures Apply(value, first + second) == Apply(Apply(value, first), second)
  {
    hide ReplacePath;
    if second == [] {
      assert first + second == first;
    } else {
      var n := |second| - 1;
      assert (first + second)[..|first| + n] == first + second[..n];
      ApplyJoins(value, first, second[..n]);
    }
  }

  /** Makes the replacements of one policy. */
  method ReplacePaths(mask: Mask, value: Value) returns (masked: Value)
    ensures masked == Apply(value, PolicyOps(mask))
  {
    hide ReplacePath;
    masked := value;
    ghost var ops := PolicyOps(mask);
    for j := 0 to |mask.paths|
      invariant masked == Apply(value, ops[..j])
    {
      assert ops[..j + 1][..j] == ops[..j];
      masked := ReplacePath(masked, mask.paths[j], mask.replacement);
    }
    assert ops[..|mask.paths|] == ops;
  }

  method MaskValue(masks: seq<Mask>, resource: Resource, value: Value) returns (masked: Value)
    ensures masked == Apply(value, OpsFor(masks, resource))
  {
    hide Apply;
    masked := value;
    ApplyNothing(value);
    for i := 0 to |masks|
      invariant masked == Apply(value, OpsFor(masks[..i], resource))
    {
      assert masks[..i + 1][..i] == masks[..i];
      if masks[i].resource == resource {
        masked := ReplacePaths(masks[i], masked);
        ApplyJoins(value, OpsFor(masks[..i], resource), PolicyOps(masks[i]));
      } else {
        assert OpsFor(masks[..i + 1], resource) == OpsFor(masks[..i], resource);
      }
    }
    assert masks[..|masks|] == masks;
  }

  lemma ApplyNothing(value: Value)
    ensures Apply(value, []) == value
  {
  }

  // ---------------------------------------------------------------------------------------
  // Masking hides what it covers
  // ---------------------------------------------------------------------------------------

  /** The paths that continue below a field. */
  ghost function Under(paths: iset<Path>, field: string): iset<Path> {
    iset tail: Path | [field] + tail in paths
  }

  /** Two values that differ only inside subtrees at the given paths, present in both. */
  ghost predicate DifferOnlyAt(x: Value, y: Value, paths: iset<Path>)
    decreases x
  {
    || [] in paths
    || x == y
    || (x.Object? && y.Object? && x.fields.Keys == y.fields.Keys
        && forall k :: k in x.fields ==> DifferOnlyAt(x.fields[k], y.fields[k], Under(paths, k)))
  }

  lemma {:induction false} NoDifference(x: Value, y: Value)
    requires DifferOnlyAt(x, y, iset{})
    ensures x == y
    decreases x
  {
    if x.Object? && y.Object? && x.fields.Keys == y.fields.Keys {
      forall k | k in x.fields ensures x.fields[k] == y.fields[k] {
        assert Under(iset{}, k) == iset{};
        NoDifference(x.fields[k], y.fields[k]);
      }
      assert x.fields == y.fields;
    }
  }

  /** A replacement at a path removes the differences at that path and makes no new ones. */
  lemma {:induction false} ReplaceErases(x: Value, y: Value, paths: iset<Path>, path: Path, replacement: Value)
    requires DifferOnlyAt(x, y, paths)
    ensures DifferOnlyAt(ReplacePath(x, path, replacement), ReplacePath(y, path, replacement), paths - iset{path})
    decreases |path|
  {
    var rest := paths - iset{path};
    if path == [] || x == y || [] in rest {
    } else if path[0] in x.fields {
      var head, tail := path[0], path[1..];
      assert path == [head] + tail;
      ReplaceErases(x.fields[head], y.fields[head], Under(paths, head), tail, replacement);
      assert Under(rest, head) == Under(paths, head) - iset{tail} by {
        assert forall t: Path :: [head] + t == path ==> t == path[1..];
      }
      forall k | k in x.fields && k != head ensures DifferOnlyAt(x.fields[k], y.fields[k], Under(rest, k)) {
        assert Under(rest, k) == Under(paths, k) by {
          assert forall t: Path :: ([k] + t)[0] == k;
        }
      }
    } else {
      forall k | k in x.fields ensures DifferOnlyAt(x.fields[k], y.fields[k], Under(rest, k)) {
        assert Under(rest, k) == Under(paths, k) by {
          assert forall t: Path :: ([k] + t)[0] == k;
        }
      }
    }
  }

  /** A replacement at a listed path keeps a value within the listed differences. */
  lemma {:induction false} ReplaceStaysWithin(x: Value, y: Value, paths: iset<Path>, path: Path, replacement: Value)
    requires DifferOnlyAt(x, y, paths) && path in paths
    ensures DifferOnlyAt(x, ReplacePath(y, path, replacement), paths)
    decreases |path|
  {
    if [] !in paths && y.Object? && path[0] in y.fields {
      var head, tail := path[0], path[1..];
      assert path == [head] + tail;
      forall k | k in x.fields ensures DifferOnlyAt(x.fields[k], y.fields[k], Under(paths, k)) {
      }
      ReplaceStaysWithin(x.fields[head], y.fields[head], Under(paths, head), tail, replacement);
    }
  }

  ghost function PathsOf(ops: seq<Op>): iset<Path> {
    iset i | 0 <= i < |ops| :: ops[i].path
  }

  /** After the replacements only differences at paths that none of them covers remain. */
  lemma {:induction false} ApplyErases(x: Value, y: Value, paths: iset<Path>, ops: seq<Op>)
    requires DifferOnlyAt(x, y, paths)
    ensures DifferOnlyAt(Apply(x, ops), Apply(y, ops), paths - PathsOf(ops))
  {
    if ops == [] {
      assert paths - PathsOf(ops) == paths;
    } else {
      var n := |ops| - 1;
      ApplyErases(x, y, paths, ops[..n]);
      ReplaceErases(Apply(x, ops[..n]), Apply(y, ops[..n]), paths - PathsOf(ops[..n]), ops[n].path, ops[n].replacement);
      assert paths - PathsOf(ops[..n]) - iset{ops[n].path} == paths - PathsOf(ops);
    }
  }

  lemma {:induction false} ApplyStaysWithin(x: Value, paths: iset<Path>, ops: seq<Op>)
    requires PathsOf(ops) <= paths
    ensures DifferOnlyAt(x, Apply(x, ops), paths)
  {
    if ops != [] {
      var n := |ops| - 1;
      assert PathsOf(ops[..n]) <= paths by {
        forall i | 0 <= i < n ensures ops[..n][i].path in paths {
          assert ops[i].path in PathsOf(ops);
        }
      }
      assert ops[n].path in PathsOf(ops);
      ApplyStaysWithin(x, paths, ops[..n]);
      ReplaceStaysWithin(x, Apply(x, ops[..n]), paths, ops[n].path, ops[n].replacement);
    }
  }

  /** The paths that the masks of a resource name. */
  ghost function MaskedPaths(masks: seq<Mask>, resource: Resource): iset<Path> {
    iset mask, path | mask in masks && mask.resource == resource && path in mask.paths :: path
  }

  /** The replacements made for a resource are those of its own masks. */
  lemma {:induction false} OpsAreOfTheResource(masks: seq<Mask>, resource: Resource)
    ensures PathsOf(OpsFor(masks, resource)) == MaskedPaths(masks, resource)
  {
    if masks != [] {
      var rest, last := masks[..|masks| - 1], masks[|masks| - 1];
      assert masks == rest + [last];
      OpsAreOfTheResource(rest, resource);
      PathsJoin(OpsFor(rest, resource), PolicyOps(last));
      PathsOfPolicy(last);
      MaskedPathsMore(rest, last, resource);
      if last.resource != resource {
        assert OpsFor(masks, resource) == OpsFor(rest, resource);
      }
    }
  }

  lemma PathsOfPolicy(mask: Mask)
    ensures PathsOf(PolicyOps(mask)) == iset path | path in mask.paths
  {
    var ops := PolicyOps(mask);
    forall path | path in mask.paths ensures path in PathsOf(ops) {
      var i :| 0 <= i < |mask.paths| && mask.paths[i] == path;
      assert ops[i].path == path;
    }
  }

  lemma MaskedPathsMore(masks: seq<Mask>, mask: Mask, resource: Resource)
    ensures MaskedPaths(masks + [mask], resource)
         == MaskedPaths(masks, resource) + if mask.resource == resource then iset path | path in mask.paths else iset{}
  {
    var all := masks + [mask];
    assert forall m :: m in all <==> m in masks || m == mask;
  }

  lemma PathsJoin(a: seq<Op>, b: seq<Op>)
    ensures PathsOf(a + b) == PathsOf(a) + PathsOf(b)
  {
    var all := a + b;
    forall path | path in PathsOf(a) + PathsOf(b) ensures path in PathsOf(all) {
      if path in PathsOf(a) {
        var i :| 0 <= i < |a| && a[i].path == path;
        assert all[i].path == path;
      } else {
        var i :| 0 <= i < |b| && b[i].path == path;
        assert all[|a| + i].path == path;
      }
    }
  }

  /**
    Masking hides what it covers: values that differ only inside subtrees at the masked paths
    of a resource have equal masked results, for every ordered list of paths, overlapping or not.
  */
  lemma MaskingHides(x: Value, y: Value, masks: seq<Mask>, resource: Resource)
    requires DifferOnlyAt(x, y, MaskedPaths(masks, resource))
    ensures Apply(x, OpsFor(masks, resource)) == Apply(y, OpsFor(masks, resource))
  {
    hide Apply, OpsFor;
    var ops := OpsFor(masks, resource);
    OpsAreOfTheResource(masks, resource);
    ApplyErases(x, y, PathsOf(ops), ops);
    assert PathsOf(ops) - PathsOf(ops) == iset{};
    NoDifference(Apply(x, ops), Apply(y, ops));
  }

  /** Masking a masked value changes nothing. */
  lemma MaskingTwice(value: Value, masks: seq<Mask>, resource: Resource)
    ensures var ops := OpsFor(masks, resource);
            Apply(Apply(value, ops), ops) == Apply(value, ops)
  {
    var ops := OpsFor(masks, resource);
    ApplyStaysWithin(value, PathsOf(ops), ops);
    OpsAreOfTheResource(masks, resource);
    MaskingHides(value, Apply(value, ops), masks, resource);
  }

  // ---------------------------------------------------------------------------------------
  // Masking shows replacements and leaves the rest
  // ---------------------------------------------------------------------------------------

  /** Neither path leads to or through the other. */
  predicate Apart(p: Path, q: Path) {
    !(p <= q) && !(q <= p)
  }

  lemma {:induction false} ReplaceThere(value: Value, path: Path, replacement: Value)
    requires ExtractPath(value, path).Some?
    ensures ExtractPath(ReplacePath(value, path, replacement), path) == Some(replacement)
    decreases |path|
  {
    if path != [] {
      ReplaceThere(value.fields[path[0]], path[1..], replacement);
    }
  }

  lemma {:induction false} ReplaceElsewhere(value: Value, path: Path, replacement: Value, other: Path)
    requires Apart(path, other)
    ensures ExtractPath(ReplacePath(value, path, replacement), other) == ExtractPath(value, other)
    decreases |path|
  {
    if value.Object? && path[0] in value.fields && path[0] == other[0] {
      assert path == [path[0]] + path[1..] && other == [other[0]] + other[1..];
      ReplaceElsewhere(value.fields[path[0]], path[1..], replacement, other[1..]);
    }
  }

  /** What lies apart from every masked path is shown as it is. */
  lemma {:induction false} UnmaskedIsKept(value: Value, ops: seq<Op>, path: Path)
    requires forall i :: 0 <= i < |ops| ==> Apart(ops[i].path, path)
    ensures ExtractPath(Apply(value, ops), path) == ExtractPath(value, path)
  {
    if ops != [] {
      var n := |ops| - 1;
      UnmaskedIsKept(value, ops[..n], path);
      ReplaceElsewhere(Apply(value, ops[..n]), ops[n].path, ops[n].replacement, path);
    }
  }

  /** A path that is present when its turn comes, and apart from all later ones, shows its replacement. */
  lemma MaskedIsReplaced(value: Value, ops: seq<Op>, i: nat)
    requires i < |ops| && ExtractPath(Apply(value, ops[..i]), ops[i].path).Some?
    requires forall j :: i < j < |ops| ==> Apart(ops[j].path, ops[i].path)
    ensures ExtractPath(Apply(value, ops), ops[i].path) == Some(ops[i].replacement)
  {
    var before := Apply(value, ops[..i]);
    ReplaceThere(before, ops[i].path, ops[i].replacement);
    assert ops[..i + 1][..i] == ops[..i];
    assert ops == ops[..i + 1] + ops[i + 1..];
    ApplyJoins(value, ops[..i + 1], ops[i + 1..]);
    UnmaskedIsKept(Apply(value, ops[..i + 1]), ops[i + 1..], ops[i].path);
  }

  // ---------------------------------------------------------------------------------------
  // What a masked value shows, by the masks of its resource
  // ---------------------------------------------------------------------------------------

  /** What lies apart from every path masked for the resource is shown as it is. */
  lemma NotMaskedIsKept(value: Value, masks: seq<Mask>, resource: Resource, path: Path)
    requires forall p :: p in MaskedPaths(masks, resource) ==> Apart(p, path)
    ensures ExtractPath(Apply(value, OpsFor(masks, resource)), path) == ExtractPath(value, path)
  {
    hide Apply, OpsFor, ExtractPath;
    var ops := OpsFor(masks, resource);
    OpsAreOfTheResource(masks, resource);
    forall i | 0 <= i < |ops| ensures Apart(ops[i].path, path) {
      assert ops[i].path in PathsOf(ops);
    }
    UnmaskedIsKept(value, ops, path);
  }

  lemma {:induction false} OpsJoin(a: seq<Mask>, b: seq<Mask>, resource: Resource)
    ensures OpsFor(a + b, resource) == OpsFor(a, resource) + OpsFor(b, resource)
  {
    if b == [] {
      assert a + b == a;
    } else {
      var n := |b| - 1;
      assert (a + b)[..|a| + n] == a + b[..n];
      OpsJoin(a, b[..n], resource);
    }
  }

  /** What stands at a path goes on standing there, while replacements are made there or apart. */
  lemma {:induction false} StaysPresent(value: Value, ops: seq<Op>, path: Path)
    requires ExtractPath(value, path).Some?
    requires forall i :: 0 <= i < |ops| ==> ops[i].path == path || Apart(ops[i].path, path)
    ensures ExtractPath(Apply(value, ops), path).Some?
  {
    if ops != [] {
      var n := |ops| - 1;
      StaysPresent(value, ops[..n], path);
      var before := Apply(value, ops[..n]);
      if ops[n].path == path {
        ReplaceThere(before, path, ops[n].replacement);
      } else {
        ReplaceElsewhere(before, ops[n].path, ops[n].replacement, path);
      }
    }
  }

  /** A policy that masks a path shows its replacement there. */
  lemma {:induction false} PolicyReplaces(value: Value, ops: seq<Op>, path: Path, replacement: Value)
    requires ExtractPath(value, path).Some?
    requires forall i :: 0 <= i < |ops| ==>
      (ops[i].path == path || Apart(ops[i].path, path)) && ops[i].replacement == replacement
    requires exists i :: 0 <= i < |ops| && ops[i].path == path
    ensures ExtractPath(Apply(value, ops), path) == Some(replacement)
  {
    var n := |ops| - 1;
    StaysPresent(value, ops[..n], path);
    var before := Apply(value, ops[..n]);
    if ops[n].path == path {
      ReplaceThere(before, path, replacement);
    } else {
      PolicyReplaces(value, ops[..n], path, replacement);
      ReplaceElsewhere(before, ops[n].path, replacement, path);
    }
  }

  lemma {:induction false} OpsMissPath(masks: seq<Mask>, resource: Resource, path: Path, all: seq<Mask>)
    requires forall mask :: mask in masks ==> mask in all
    requires forall p :: p in MaskedPaths(all, resource) ==> p == path || Apart(p, path)
    ensures forall i :: 0 <= i < |OpsFor(masks, resource)| ==>
      var p := OpsFor(masks, resource)[i].path;
      (p == path || Apart(p, path)) && (path !in MaskedPaths(masks, resource) ==> Apart(p, path))
  {
    hide OpsFor;
    var ops := OpsFor(masks, resource);
    OpsAreOfTheResource(masks, resource);
    forall i | 0 <= i < |ops| ensures ops[i].path in MaskedPaths(masks, resource) {
      assert ops[i].path in PathsOf(ops);
    }
    assert MaskedPaths(masks, resource) <= MaskedPaths(all, resource);
  }

  /** A masked path at which something stands shows the replacement of the last mask of the
  resource that names it, when no other masked path leads to it or through it. */
  lemma {:induction false} LastMaskShows(value: Value, masks: seq<Mask>, resource: Resource, path: Path, k: nat)
    requires k < |masks| && masks[k].resource == resource && path in masks[k].paths
    requires ExtractPath(value, path).Some?
    requires forall p :: p in MaskedPaths(masks, resource) ==> p == path || Apart(p, path)
    requires forall j :: k < j < |masks| && masks[j].resource == resource ==> path !in masks[j].paths
    ensures ExtractPath(Apply(value, OpsFor(masks, resource)), path) == Some(masks[k].replacement)
  {
    hide Apply, ExtractPath;
    var before, mask, later := masks[..k], masks[k], masks[k + 1..];
    var a, b, c := OpsFor(before, resource), PolicyOps(mask), OpsFor(later, resource);
    assert OpsFor(masks, resource) == a + b + c by {
      assert masks[..k + 1][..k] == before && masks == masks[..k + 1] + later;
      OpsJoin(masks[..k + 1], later, resource);
    }
    hide OpsFor;
    OpsMissPath(before, resource, path, masks);
    OpsMissPath(later, resource, path, masks);
    ApplyJoins(value, a + b, c);
    ApplyJoins(value, a, b);
    StaysPresent(value, a, path);
    PolicyPaths(mask, masks, resource, path);
    PolicyReplaces(Apply(value, a), b, path, mask.replacement);
    UnmaskedIsKept(Apply(value, a + b), c, path);
  }

  lemma PolicyPaths(mask: Mask, masks: seq<Mask>, resource: Resource, path: Path)
    requires mask in masks && mask.resource == resource && path in mask.paths
    requires forall p :: p in MaskedPaths(masks, resource) ==> p == path || Apart(p, path)
    ensures var ops := PolicyOps(mask);
            && (forall i :: 0 <= i < |ops| ==>
                  (ops[i].path == path || Apart(ops[i].path, path)) && ops[i].replacement == mask.replacement)
            && exists i :: 0 <= i < |ops| && ops[i].path == path
  {
    var ops := PolicyOps(mask);
    forall i | 0 <= i < |ops| ensures ops[i].path in MaskedPaths(masks, resource) {
      assert mask.paths[i] in mask.paths;
    }
    var i :| 0 <= i < |mask.paths| && mask.paths[i] == path;
    assert ops[i].path == path;
  }
}
