/** The resource cache: geometry and material handles memoised by a string
    key, so that every mesh drawn with the same shape or the same colour
    shares one handle. The cache is a singleton holding two maps that are
    only ever extended, on a miss; a lookup returns the stored entry. */
module Resources {

  /** The geometry constructors of the rendering library the cache calls. */
  datatype ShapeKind = BoxGeometry | SphereGeometry | ConeGeometry

  /** A geometry handle. `Undefined` is what an unrecognised kind produces
      (and what gets cached for it); a `Shape` is a fresh object whose
      identity is `id`. */
  datatype Geometry = Undefined | Shape(id: nat, shape: ShapeKind, params: seq<string>)

  /** A standard surface material handle; `id` is the object's identity. */
  datatype Material = Material(id: nat, color: nat, transparent: bool,
                               roughness: real, metalness: real, opacity: real)

  /** The two maps, with the number of handle objects created so far
      (what gives every new handle its own identity). */
  datatype Caches = Caches(geometries: map<string, Geometry>,
                           materials: map<string, Material>,
                           created: nat)

  // ---------------------------------------------------------------
  // Keys
  // ---------------------------------------------------------------

  function Digit(d: nat): (c: char)
    requires d < 10
    ensures '0' <= c <= '9'
    ensures c as int - '0' as int == d
  {
    ('0' as int + d) as char
  }

  /** The decimal text of a natural number, as string interpolation prints
      an integer colour. */
  function DecimalText(n: nat): (s: string)
    ensures |s| > 0
    ensures forall k :: 0 <= k < |s| ==> '0' <= s[k] <= '9'
    ensures n < 10 <==> |s| == 1
  {
    if n < 10 then [Digit(n)] else DecimalText(n / 10) + [Digit(n % 10)]
  }

  /** A character the serialiser can emit inside the text of a number. */
  predicate IsNumberChar(c: char) {
    '0' <= c <= '9' || c == '.' || c == '-' || c == '+' || c == 'e' || c == 'E'
  }

  /** The serialised text of one number. */
  predicate IsNumberText(t: string) {
    |t| > 0 && forall k :: 0 <= k < |t| ==> IsNumberChar(t[k])
  }

  predicate AllNumberTexts(ps: seq<string>) {
    forall i :: 0 <= i < |ps| ==> IsNumberText(ps[i])
  }

  /** The elements of a serialised array, separated by commas. */
  function Join(ps: seq<string>): string {
    if ps == [] then []
    else if |ps| == 1 then ps[0]
    else ps[0] + "," + Join(ps[1..])
  }

  /** The serialised parameter array `[p0,p1,...]`. */
  function JsonArray(ps: seq<string>): string {
    "[" + Join(ps) + "]"
  }

  /** The key of a geometry: the kind, an underscore and the serialised
      parameters. */
  function GeometryKey(kind: string, params: seq<string>): string {
    kind + "_" + JsonArray(params)
  }

  function BoolText(b: bool): string {
    if b then "true" else "false"
  }

  /** The key of a material: the colour as an integer, an underscore and
      the transparency flag. */
  function MaterialKey(color: nat, transparent: bool): string {
    DecimalText(color) + "_" + BoolText(transparent)
  }

  // ---------------------------------------------------------------
  // Key injectivity
  // ---------------------------------------------------------------

  lemma {:induction false} DecimalTextInjective(m: nat, n: nat)
    requires DecimalText(m) == DecimalText(n)
    ensures m == n
  {
    if m < 10 && n < 10 {
      assert DecimalText(m)[0] == Digit(m);
    } else if m >= 10 && n >= 10 {
      var sm, sn := DecimalText(m), DecimalText(n);
      assert sm[|sm| - 1] == Digit(m % 10);
      assert sn[|sn| - 1] == Digit(n % 10);
      assert DecimalText(m / 10) == sm[..|sm| - 1];
      assert DecimalText(n / 10) == sn[..|sn| - 1];
      DecimalTextInjective(m / 10, n / 10);
    }
  }

  /** How a non-empty join starts: with its first element, followed either
      by nothing or by a comma and the join of the rest. */
  lemma JoinShape(ps: seq<string>)
    requires |ps| > 0
    ensures |Join(ps)| >= |ps[0]| && Join(ps)[..|ps[0]|] == ps[0]
    ensures |ps| == 1 ==> Join(ps) == ps[0]
    ensures |ps| > 1 ==> |Join(ps)| > |ps[0]| && Join(ps)[|ps[0]|] == ','
                         && Join(ps)[|ps[0]| + 1..] == Join(ps[1..])
  {
    if |ps| > 1 {
      var rest := "," + Join(ps[1..]);
      assert Join(ps) == ps[0] + rest;
      assert (ps[0] + rest)[|ps[0]| + 1..] == rest[1..];
    }
  }

  lemma {:induction false} JoinInjective(a: seq<string>, b: seq<string>)
    requires AllNumberTexts(a) && AllNumberTexts(b)
    requires Join(a) == Join(b)
    ensures a == b
    decreases |a|
  {
    if a == [] {
      if b != [] {
        JoinShape(b);
        assert false;
      }
    } else if b == [] {
      JoinShape(a);
      assert false;
    } else {
      JoinShape(a);
      JoinShape(b);
      var s := Join(a);
      assert IsNumberText(a[0]) && IsNumberText(b[0]);
      if |a[0]| < |b[0]| {
        assert false;
      }
      if |b[0]| < |a[0]| {
        assert false;
      }
      assert a[0] == b[0];
      if |a| == 1 && |b| > 1 { assert false; }
      if |b| == 1 && |a| > 1 { assert false; }
      if |a| > 1 {
        assert AllNumberTexts(a[1..]) by {
          forall i | 0 <= i < |a[1..]| ensures IsNumberText(a[1..][i]) { assert a[1..][i] == a[i + 1]; }
        }
        assert AllNumberTexts(b[1..]) by {
          forall i | 0 <= i < |b[1..]| ensures IsNumberText(b[1..][i]) { assert b[1..][i] == b[i + 1]; }
        }
        JoinInjective(a[1..], b[1..]);
        assert a == [a[0]] + a[1..] && b == [b[0]] + b[1..];
      }
    }
  }

  /** Two geometry requests share a key exactly when they have the same
      kind and the same parameters, for the kinds and parameters the
      modules use (a kind without an underscore, numeric parameters). */
  lemma GeometryKeyInjective(k1: string, p1: seq<string>, k2: string, p2: seq<string>)
    requires '_' !in k1 && '_' !in k2
    requires AllNumberTexts(p1) && AllNumberTexts(p2)
    ensures GeometryKey(k1, p1) == GeometryKey(k2, p2) <==> k1 == k2 && p1 == p2
  {
    var s1, s2 := GeometryKey(k1, p1), GeometryKey(k2, p2);
    if s1 == s2 {
      assert s1[|k1|] == '_' && s2[|k2|] == '_';
      assert forall i :: 0 <= i < |k1| ==> s1[i] == k1[i];
      assert forall i :: 0 <= i < |k2| ==> s2[i] == k2[i];
      assert |k1| == |k2|;
      assert k1 == s1[..|k1|] && k2 == s2[..|k2|];
      var j1, j2 := Join(p1), Join(p2);
      assert s1 == k1 + "_[" + j1 + "]";
      assert s2 == k2 + "_[" + j2 + "]";
      assert j1 == s1[|k1| + 2..|s1| - 1];
      assert j2 == s2[|k2| + 2..|s2| - 1];
      JoinInjective(p1, p2);
    }
  }

  /** Two material requests share a key exactly when they have the same
      colour and the same transparency flag. */
  lemma MaterialKeyInjective(c1: nat, t1: bool, c2: nat, t2: bool)
    ensures MaterialKey(c1, t1) == MaterialKey(c2, t2) <==> c1 == c2 && t1 == t2
  {
    var d1, d2 := DecimalText(c1), DecimalText(c2);
    var s1, s2 := MaterialKey(c1, t1), MaterialKey(c2, t2);
    if s1 == s2 {
      assert s1[|d1|] == '_' && s2[|d2|] == '_';
      assert forall i :: 0 <= i < |d1| ==> s1[i] == d1[i];
      assert forall i :: 0 <= i < |d2| ==> s2[i] == d2[i];
      assert |d1| == |d2|;
      assert d1 == s1[..|d1|] && d2 == s2[..|d2|];
      DecimalTextInjective(c1, c2);
      assert BoolText(t1) == s1[|d1| + 1..] && BoolText(t2) == s2[|d2| + 1..];
      assert |BoolText(t1)| == |BoolText(t2)|;
    }
  }

  // ---------------------------------------------------------------
  // Lookups as steps on the cache
  // ---------------------------------------------------------------

  /** The handle a cache miss creates for `kind`: one of the three library
      geometries, or nothing at all for any other kind. */
  function NewGeometry(kind: string, params: seq<string>, id: nat): Geometry {
    if kind == "box" then Shape(id, BoxGeometry, params)
    else if kind == "sphere" then Shape(id, SphereGeometry, params)
    else if kind == "arrow" then Shape(id, ConeGeometry, params)
    else Undefined
  }

  /** A geometry request: on a miss the new handle is stored under the key
      (an undefined one included); the stored entry is returned. */
  function GeometryStep(c: Caches, kind: string, params: seq<string>): (Caches, Geometry) {
    var key := GeometryKey(kind, params);
    if key in c.geometries then (c, c.geometries[key])
    else
      var g := NewGeometry(kind, params, c.created);
      (c.(geometries := c.geometries[key := g], created := c.created + 1), g)
  }

  /** A material request; a new material has roughness 0.3, metalness 0.6
      and is half solid when transparent. */
  function MaterialStep(c: Caches, color: nat, transparent: bool): (Caches, Material) {
    var key := MaterialKey(color, transparent);
    if key in c.materials then (c, c.materials[key])
    else
      var m := Material(c.created, color, transparent, 0.3, 0.6, if transparent then 0.5 else 1.0);
      (c.(materials := c.materials[key := m], created := c.created + 1), m)
  }

  /** Every stored handle object was created by the cache (its identity is
      below the counter) and no two keys hold the same handle object. */
  ghost predicate CachesValid(c: Caches) {
    (forall k | k in c.geometries && c.geometries[k].Shape? :: c.geometries[k].id < c.created)
    && (forall k | k in c.materials :: c.materials[k].id < c.created)
    && (forall k1, k2 | k1 in c.geometries && k2 in c.geometries && k1 != k2
          && c.geometries[k1].Shape? && c.geometries[k2].Shape? ::
          c.geometries[k1].id != c.geometries[k2].id)
    && (forall k1, k2 | k1 in c.materials && k2 in c.materials && k1 != k2 ::
          c.materials[k1].id != c.materials[k2].id)
    && MaterialsKeyed(c)
  }

  /** Every material is stored under the key of its own colour and flag. */
  ghost predicate MaterialsKeyed(c: Caches) {
    forall k | k in c.materials :: k == MaterialKey(c.materials[k].color, c.materials[k].transparent)
  }

  /** A material request, hit or miss, returns a material of the requested
      colour and transparency. */
  lemma MaterialStepMatchesRequest(c: Caches, color: nat, transparent: bool)
    requires MaterialsKeyed(c)
    ensures MaterialStep(c, color, transparent).1.color == color
    ensures MaterialStep(c, color, transparent).1.transparent == transparent
  {
    var key := MaterialKey(color, transparent);
    if key in c.materials {
      var m := c.materials[key];
      MaterialKeyInjective(m.color, m.transparent, color, transparent);
    }
  }

  /** One cache extends another: every entry is kept as it was. */
  ghost predicate Extends(c: Caches, d: Caches) {
    c.created <= d.created
    && (forall k | k in c.geometries :: k in d.geometries && d.geometries[k] == c.geometries[k])
    && (forall k | k in c.materials :: k in d.materials && d.materials[k] == c.materials[k])
  }

  /** A repeated geometry request returns the handle of the first and adds
      no entry; the returned handle is the one stored under the key. */
  lemma GeometryRequestIdempotent(c: Caches, kind: string, params: seq<string>)
    ensures var (c1, g1) := GeometryStep(c, kind, params);
            GeometryKey(kind, params) in c1.geometries
            && c1.geometries[GeometryKey(kind, params)] == g1
            && GeometryStep(c1, kind, params) == (c1, g1)
  {
  }

  /** A repeated material request returns the handle of the first and adds
      no entry. */
  lemma MaterialRequestIdempotent(c: Caches, color: nat, transparent: bool)
    ensures var (c1, m1) := MaterialStep(c, color, transparent);
            MaterialKey(color, transparent) in c1.materials
            && c1.materials[MaterialKey(color, transparent)] == m1
            && MaterialStep(c1, color, transparent) == (c1, m1)
  {
  }

  /** Requests only ever add entries: the cache after a request extends the
      cache before, with one more key exactly on a miss. */
  lemma RequestsOnlyGrow(c: Caches, kind: string, params: seq<string>, color: nat, transparent: bool)
    ensures Extends(c, GeometryStep(c, kind, params).0)
    ensures Extends(c, MaterialStep(c, color, transparent).0)
    ensures GeometryStep(c, kind, params).0.geometries.Keys == c.geometries.Keys + {GeometryKey(kind, params)}
    ensures GeometryStep(c, kind, params).0.materials == c.materials
    ensures MaterialStep(c, color, transparent).0.materials.Keys == c.materials.Keys + {MaterialKey(color, transparent)}
    ensures MaterialStep(c, color, transparent).0.geometries == c.geometries
  {
  }

  /** Once a key is stored, every later cache that extends this one returns
      the same handle for it. */
  lemma SameRequestSameHandle(c: Caches, d: Caches, kind: string, params: seq<string>)
    requires Extends(GeometryStep(c, kind, params).0, d)
    ensures GeometryStep(d, kind, params) == (d, GeometryStep(c, kind, params).1)
  {
  }

  /** A geometry request keeps the handle objects distinct per key. */
  lemma GeometryStepKeepsValid(c: Caches, kind: string, params: seq<string>)
    requires CachesValid(c)
    ensures CachesValid(GeometryStep(c, kind, params).0)
  {
  }

  /** A material request keeps the handle objects distinct per key, and
      each material stored under the key of its own colour and flag. */
  lemma MaterialStepKeepsValid(c: Caches, color: nat, transparent: bool)
    requires CachesValid(c)
    ensures CachesValid(MaterialStep(c, color, transparent).0)
  {
    var key := MaterialKey(color, transparent);
    if key !in c.materials {
      var d := MaterialStep(c, color, transparent).0;
      forall k | k in d.materials
        ensures k == MaterialKey(d.materials[k].color, d.materials[k].transparent)
        ensures d.materials[k].id < d.created
      {
        if k != key {
          assert d.materials[k] == c.materials[k];
        }
      }
      forall k1, k2 | k1 in d.materials && k2 in d.materials && k1 != k2
        ensures d.materials[k1].id != d.materials[k2].id
      {
        if k1 != key && k2 != key {
          assert d.materials[k1] == c.materials[k1] && d.materials[k2] == c.materials[k2];
        }
      }
    }
  }

  /** A material request keeps every material under its own key. */
  lemma MaterialStepKeepsKeyed(c: Caches, color: nat, transparent: bool)
    requires MaterialsKeyed(c)
    ensures MaterialsKeyed(MaterialStep(c, color, transparent).0)
  {
    var key := MaterialKey(color, transparent);
    if key !in c.materials {
      var d := MaterialStep(c, color, transparent).0;
      forall k | k in d.materials
        ensures k == MaterialKey(d.materials[k].color, d.materials[k].transparent)
      {
        if k != key {
          assert d.materials[k] == c.materials[k];
        }
      }
    }
  }

  /** One lookup, as the modules issue them. */
  datatype Request = GeometryRequest(kind: string, params: seq<string>)
                   | MaterialRequest(color: nat, transparent: bool)

  /** The cache after a run of lookups, in order. */
  function Run(c: Caches, reqs: seq<Request>): Caches
    decreases |reqs|
  {
    if reqs == [] then c
    else
      var c1 := match reqs[0]
        case GeometryRequest(kind, params) => GeometryStep(c, kind, params).0
        case MaterialRequest(color, transparent) => MaterialStep(c, color, transparent).0;
      Run(c1, reqs[1..])
  }

  /** The empty cache the singleton starts from. */
  const EMPTY_CACHES := Caches(map[], map[], 0)

  /** Whatever lookups are made, every stored handle object stays distinct
      per key and every material sits under its own key. */
  lemma {:induction false} RunKeepsValid(c: Caches, reqs: seq<Request>)
    requires CachesValid(c)
    ensures CachesValid(Run(c, reqs))
    decreases |reqs|
  {
    if reqs != [] {
      match reqs[0]
      case GeometryRequest(kind, params) =>
        GeometryStepKeepsValid(c, kind, params);
        RunKeepsValid(GeometryStep(c, kind, params).0, reqs[1..]);
      case MaterialRequest(color, transparent) =>
        MaterialStepKeepsValid(c, color, transparent);
        RunKeepsValid(MaterialStep(c, color, transparent).0, reqs[1..]);
    }
  }

  /** The singleton starts empty, so every state its lookups reach keeps
      the handles distinct per key. */
  lemma RunFromEmptyValid(reqs: seq<Request>)
    ensures CachesValid(Run(EMPTY_CACHES, reqs))
  {
    RunKeepsValid(EMPTY_CACHES, reqs);
  }

  /** The same colour with the other transparency flag is a different
      entry, holding a different material object with its own opacity. */
  lemma TransparencySplitsMaterials(c: Caches, color: nat)
    requires CachesValid(c)
    ensures var (c1, solid) := MaterialStep(c, color, false);
            var (c2, clear) := MaterialStep(c1, color, true);
            solid.id != clear.id && MaterialKey(color, false) in c2.materials
            && MaterialKey(color, true) in c2.materials
  {
    MaterialKeyInjective(color, false, color, true);
    var (c1, solid) := MaterialStep(c, color, false);
    MaterialStepKeepsValid(c, color, false);
  }

  /** A material created on a miss carries the requested colour and flag,
      roughness 0.3, metalness 0.6, and opacity 0.5 exactly when it is
      transparent (1.0 otherwise). */
  lemma NewMaterialAttributes(c: Caches, color: nat, transparent: bool)
    requires MaterialKey(color, transparent) !in c.materials
    ensures var m := MaterialStep(c, color, transparent).1;
            m.color == color && m.transparent == transparent
            && m.roughness == 0.3 && m.metalness == 0.6
            && m.opacity == (if transparent then 0.5 else 1.0)
            && m.id == c.created
  {
  }

  /** A kind the cache does not recognise yields, and caches, an undefined
      handle; the three recognised kinds yield a library geometry. */
  lemma UnknownKindCachesUndefined(c: Caches, kind: string, params: seq<string>)
    requires GeometryKey(kind, params) !in c.geometries
    ensures var (c1, g) := GeometryStep(c, kind, params);
            (g == Undefined <==> kind !in {"box", "sphere", "arrow"})
            && GeometryKey(kind, params) in c1.geometries
            && c1.geometries[GeometryKey(kind, params)] == g
  {
  }

  // ---------------------------------------------------------------
  // The cache object
  // ---------------------------------------------------------------

  class ResourceCache {
    var geometries: map<string, Geometry>
    var materials: map<string, Material>
    var created: nat

    ghost function State(): Caches
      reads this
    {
      Caches(geometries, materials, created)
    }

    /** The invariant the lookups rely on: each material sits under its own
        key. That the handles also stay distinct per key holds of every
        state the lookups reach from the empty cache (`RunKeepsValid`). */
    ghost predicate Valid()
      reads this
    {
      MaterialsKeyed(State())
    }

    constructor ()
      ensures Valid()
      ensures geometries == map[] && materials == map[] && created == 0
    {
      geometries, materials, created := map[], map[], 0;
    }

    method GetGeometry(kind: string, params: seq<string>) returns (g: Geometry)
      requires Valid()
      modifies this
      ensures Valid()
      ensures (State(), g) == GeometryStep(old(State()), kind, params)
    {
      var key := GeometryKey(kind, params);
      if key !in geometries {
        var geo: Geometry;
        if kind == "box" {
          geo := Shape(created, BoxGeometry, params);
        } else if kind == "sphere" {
          geo := Shape(created, SphereGeometry, params);
        } else if kind == "arrow" {
          geo := Shape(created, ConeGeometry, params);
        } else {
          geo := Undefined;
        }
        created := created + 1;
        geometries := geometries[key := geo];
      }
      g := geometries[key];
    }

    method GetMaterial(color: nat, transparent: bool) returns (m: Material)
      requires Valid()
      modifies this
      ensures Valid()
      ensures (State(), m) == MaterialStep(old(State()), color, transparent)
      ensures m.color == color && m.transparent == transparent
    {
      MaterialStepKeepsKeyed(State(), color, transparent);
      MaterialStepMatchesRequest(State(), color, transparent);
      var key := MaterialKey(color, transparent);
      if key !in materials {
        var mat := Material(created, color, transparent, 0.3, 0.6, if transparent then 0.5 else 1.0);
        created := created + 1;
        materials := materials[key := mat];
      }
      m := materials[key];
    }

    /** Does nothing: the cached handles are kept for reuse. */
    method Dispose()
      ensures State() == old(State())
    {
    }
  }
}
