/**
 * A parsed YAML document as the safe loader builds it: scalars, sequences and
 * mappings.  Mapping keys are scalars (the loader refuses unhashable keys).
 * A key segment of a `!from_yaml` directive is a string, and a Python string
 * only ever equals a string key, so lookups are by `Str(k)`.
 */
module YamlTree {
  import opened Results

  datatype Scalar =
    | Null
    | Bool(b: bool)
    | Int(i: int)
    | Float(r: real)
    | Str(s: string)

  datatype Yaml =
    | Leaf(scalar: Scalar)
    | Seq(items: seq<Yaml>)
    | Map(entries: map<Scalar, Yaml>)

  /** Python's truth value of the loaded document: `bool(doc)`. */
  predicate Truthy(y: Yaml) {
    match y
    case Leaf(Null) => false
    case Leaf(Bool(b)) => b
    case Leaf(Int(i)) => i != 0
    case Leaf(Float(r)) => r != 0.0
    case Leaf(Str(s)) => |s| > 0
    case Seq(items) => |items| > 0
    case Map(entries) => |entries| > 0
  }

  /** The documents Python treats as false: exactly seven of them. */
  lemma FalsyDocuments(y: Yaml)
    ensures !Truthy(y) <==>
      y in {Leaf(Null), Leaf(Bool(false)), Leaf(Int(0)), Leaf(Float(0.0)), Leaf(Str("")), Seq([]), Map(map[])}
  {
    if y.Map? && |y.entries| == 0 {
      assert y.entries == map[];
    }
  }

  /** Why `cur[k]` can fail. */
  datatype WalkError =
    | MissingKey    // `KeyError`: a mapping without the key
    | NotAMapping   // `TypeError`: a scalar or a sequence indexed by a string

  /** `cur[k]` for a string `k`. */
  function Subscript(cur: Yaml, k: string): Result<Yaml, WalkError> {
    match cur
    case Map(entries) => if Str(k) in entries then Ok(entries[Str(k)]) else Err(MissingKey)
    case _ => Err(NotAMapping)
  }

  /** Successive lookups of `path` starting at `doc`; the first failing lookup ends the walk. */
  function Walk(doc: Yaml, path: seq<string>): Result<Yaml, WalkError>
    decreases |path|
  {
    if path == [] then Ok(doc)
    else
      match Subscript(doc, path[0])
      case Ok(next) => Walk(next, path[1..])
      case Err(e) => Err(e)
  }

  /** A document holding `v` under the nested keys `path`. */
  function Nest(path: seq<string>, v: Yaml): Yaml
    decreases |path|
  {
    if path == [] then v else Map(map[Str(path[0]) := Nest(path[1..], v)])
  }

  /** Lookup `i` of `path` is reached and fails with `e`. */
  predicate FailsAt(doc: Yaml, path: seq<string>, i: int, e: WalkError) {
    && 0 <= i < |path|
    && Walk(doc, path[..i]).Ok?
    && Subscript(Walk(doc, path[..i]).value, path[i]) == Err(e)
  }

  // ---------------------------------------------------------------------
  // Properties

  /** Walking a path in two parts is walking it in one. */
  lemma {:induction false} WalkAppend(doc: Yaml, p: seq<string>, q: seq<string>)
    ensures Walk(doc, p + q) ==
      match Walk(doc, p)
      case Ok(mid) => Walk(mid, q)
      case Err(e) => Err(e)
    decreases |p|
  {
    if p == [] {
      assert p + q == q;
    } else {
      assert (p + q)[0] == p[0];
      assert (p + q)[1..] == p[1..] + q;
      match Subscript(doc, p[0])
      case Ok(next) => WalkAppend(next, p[1..], q);
      case Err(_) =>
    }
  }

  /**
   * One more key after a successful walk looks that key up, as is, in the
   * mapping reached: the value returned is the one stored there.
   */
  lemma WalkLast(doc: Yaml, path: seq<string>, k: string)
    ensures Walk(doc, path + [k]) ==
      match Walk(doc, path)
      case Ok(mid) => Subscript(mid, k)
      case Err(e) => Err(e)
  {
    WalkAppend(doc, path, [k]);
    if Walk(doc, path).Ok? {
      var mid := Walk(doc, path).value;
      assert [k][1..] == [];
      match Subscript(mid, k)
      case Ok(v) => assert Walk(mid, [k]) == Walk(v, []);
      case Err(_) =>
    }
  }

  /** The walk returns exactly the value nested under the path. */
  lemma {:induction false} WalkNest(path: seq<string>, v: Yaml)
    ensures Walk(Nest(path, v), path) == Ok(v)
    decreases |path|
  {
    if path != [] {
      WalkNest(path[1..], v);
    }
  }

  /** A walk fails with `e` exactly when some lookup along the path is reached and fails with `e`. */
  lemma {:induction false} WalkFailure(doc: Yaml, path: seq<string>, e: WalkError)
    ensures Walk(doc, path) == Err(e) <==> exists i :: FailsAt(doc, path, i, e)
    decreases |path|
  {
    if Walk(doc, path) == Err(e) {
      WalkFailureWitness(doc, path, e);
    }
    if i :| FailsAt(doc, path, i, e) {
      var mid := Walk(doc, path[..i]).value;
      WalkAppend(doc, path[..i], path[i..]);
      assert path[..i] + path[i..] == path;
      assert path[i..][0] == path[i];
    }
  }

  lemma {:induction false} WalkFailureWitness(doc: Yaml, path: seq<string>, e: WalkError)
    requires Walk(doc, path) == Err(e)
    ensures exists i :: FailsAt(doc, path, i, e)
    decreases |path|
  {
    assert path != [];
    assert path[..0] == [];
    match Subscript(doc, path[0])
    case Err(_) =>
      assert FailsAt(doc, path, 0, e);
    case Ok(next) =>
      WalkFailureWitness(next, path[1..], e);
      var j :| FailsAt(next, path[1..], j, e);
      var p := path[..j + 1];
      assert p[0] == path[0] && p[1..] == path[1..][..j];
      assert Walk(doc, p) == Walk(next, path[1..][..j]);
      assert path[j + 1] == path[1..][j];
      assert FailsAt(doc, path, j + 1, e);
  }

}
