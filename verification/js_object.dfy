/**
 * A plain JavaScript object used as a string-keyed dictionary (`const scripts = {}`,
 * `const versions = {}`): its own keys in insertion order together with the value of
 * each.  An assignment `o[k] = v` of a string replaces the value of an existing key in
 * place and appends a new key at the end, except for `__proto__`; `Object.keys` /
 * `Object.entries` list the keys in that order.  Also the two string predicates the
 * source uses.
 */
module JsObject {
  import opened Wrappers

  /**
   * The one name an assignment cannot make an own key: `o.__proto__ = v` calls the
   * setter inherited from `Object.prototype`, which ignores a `v` that is not an object.
   */
  const ProtoKey := "__proto__"

  datatype Dict<V> = Dict(keys: seq<string>, values: map<string, V>)
  {
    /** Every key is listed exactly once and has a value; `__proto__` is never an own key. */
    ghost predicate Valid() {
      && (forall k :: k in values <==> k in keys)
      && (forall i, j :: 0 <= i < j < |keys| ==> keys[i] != keys[j])
      && ProtoKey !in values
    }

    /** `o[k]`, `None` standing for `undefined`. */
    function Get(k: string): Option<V> {
      if k in values then Some(values[k]) else None
    }
  }

  /** `{}` */
  function Empty<V>(): (d: Dict<V>)
    ensures d.Valid()
  {
    Dict([], map[])
  }

  /** `s.startsWith(p)` */
  predicate StartsWith(s: string, p: string) {
    |p| <= |s| && s[..|p|] == p
  }

  /** `s.endsWith(p)` */
  predicate EndsWith(s: string, p: string) {
    |p| <= |s| && s[|s| - |p|..] == p
  }

  /**
   * `o[k] = v` with a string `v`: the object stays well formed, `k` now maps to `v` and
   * nothing else changes; `o["__proto__"] = v` changes nothing at all.
   */
  function Put<V>(d: Dict<V>, k: string, v: V): (r: Dict<V>)
    requires d.Valid()
    ensures r.Valid()
    ensures k == ProtoKey ==> r == d
    ensures k != ProtoKey ==> r.Get(k) == Some(v)
    ensures forall k' :: k' != k ==> r.Get(k') == d.Get(k')
    ensures k in d.values || k == ProtoKey ==> r.keys == d.keys
    ensures k !in d.values && k != ProtoKey ==> r.keys == d.keys + [k]
  {
    if k == ProtoKey then d
    else if k in d.values then Dict(d.keys, d.values[k := v])
    else Dict(d.keys + [k], d.values[k := v])
  }

  /** The assignments `o[ps[0].0] = ps[0].1; o[ps[1].0] = ps[1].1; ...`, in order. */
  function PutAll<V>(d: Dict<V>, ps: seq<(string, V)>): (r: Dict<V>)
    requires d.Valid()
    ensures r.Valid()
    decreases |ps|
  {
    if ps == [] then d else PutAll(Put(d, ps[0].0, ps[0].1), ps[1..])
  }

  /** Running the assignments from position `i` on is assignment `i` followed by the rest. */
  lemma PutAllFrom<V>(d: Dict<V>, ps: seq<(string, V)>, i: nat)
    requires d.Valid() && i < |ps|
    ensures PutAll(d, ps[i..]) == PutAll(Put(d, ps[i].0, ps[i].1), ps[i + 1..])
  {
    assert ps[i..][0] == ps[i] && ps[i..][1..] == ps[i + 1..];
  }

  /** An assignment run that never names `k` leaves `o[k]` as it was. */
  lemma {:induction false} PutAllUntouched<V>(d: Dict<V>, ps: seq<(string, V)>, k: string)
    requires d.Valid()
    requires forall i :: 0 <= i < |ps| ==> ps[i].0 != k
    ensures PutAll(d, ps).Get(k) == d.Get(k)
    decreases |ps|
  {
    if ps != [] {
      assert forall i :: 0 <= i < |ps| - 1 ==> ps[1..][i] == ps[i + 1];
      PutAllUntouched(Put(d, ps[0].0, ps[0].1), ps[1..], k);
    }
  }

  /** After an assignment run, a key holds the value of its LAST assignment. */
  lemma {:induction false} PutAllLast<V>(d: Dict<V>, ps: seq<(string, V)>, k: string, i: nat)
    requires d.Valid() && k != ProtoKey
    requires i < |ps| && ps[i].0 == k
    requires forall j :: i < j < |ps| ==> ps[j].0 != k
    ensures PutAll(d, ps).Get(k) == Some(ps[i].1)
    decreases |ps|
  {
    assert forall j :: 0 <= j < |ps| - 1 ==> ps[1..][j] == ps[j + 1];
    if i > 0 {
      PutAllLast(Put(d, ps[0].0, ps[0].1), ps[1..], k, i - 1);
    } else {
      PutAllUntouched(Put(d, ps[0].0, ps[0].1), ps[1..], k);
    }
  }

  /**
   * The keys after an assignment run: the old ones and every assigned one other than
   * `__proto__`, nothing else.
   */
  lemma {:induction false} PutAllMember<V>(d: Dict<V>, ps: seq<(string, V)>, k: string)
    requires d.Valid()
    ensures k in PutAll(d, ps).values <==>
      k in d.values || (k != ProtoKey && exists i :: 0 <= i < |ps| && ps[i].0 == k)
    decreases |ps|
  {
    if ps != [] {
      PutAllMember(Put(d, ps[0].0, ps[0].1), ps[1..], k);
      if exists i :: 0 <= i < |ps| && ps[i].0 == k {
        var i :| 0 <= i < |ps| && ps[i].0 == k;
        if i > 0 {
          assert ps[1..][i - 1].0 == k;
        }
      }
      if exists i :: 0 <= i < |ps| - 1 && ps[1..][i].0 == k {
        var i :| 0 <= i < |ps| - 1 && ps[1..][i].0 == k;
        assert ps[i + 1].0 == k;
      }
    }
  }

  /** The keys of a sequence of assignments, in order. */
  function Names<V>(ps: seq<(string, V)>): (ns: seq<string>)
    ensures |ns| == |ps|
    ensures forall i :: 0 <= i < |ps| ==> ns[i] == ps[i].0
  {
    seq(|ps|, i requires 0 <= i < |ps| => ps[i].0)
  }

  /**
   * Assigning distinct new keys appends them in the order of assignment: this is the
   * insertion order `Object.entries` later reports.
   */
  lemma {:induction false} PutAllFreshKeys<V>(d: Dict<V>, ps: seq<(string, V)>)
    requires d.Valid() && FreshKeys(d, ps)
    ensures PutAll(d, ps).keys == d.keys + Names(ps)
    decreases |ps|
  {
    if ps != [] {
      var d' := Put(d, ps[0].0, ps[0].1);
      FreshRest(d, ps);
      PutAllFreshKeys(d', ps[1..]);
      NamesCons(ps);
      AppendAssoc(d.keys, ps[0].0, Names(ps[1..]));
    }
  }

  /** The keys `ps` assigns are distinct, none of them is a key of `d` yet, and none is `__proto__`. */
  ghost predicate FreshKeys<V>(d: Dict<V>, ps: seq<(string, V)>) {
    && (forall i, j :: 0 <= i < j < |ps| ==> ps[i].0 != ps[j].0)
    && (forall i :: 0 <= i < |ps| ==> ps[i].0 !in d.values && ps[i].0 != ProtoKey)
  }

  lemma AppendAssoc(a: seq<string>, x: string, b: seq<string>)
    ensures (a + [x]) + b == a + ([x] + b)
  {
  }

  lemma NamesCons<V>(ps: seq<(string, V)>)
    requires ps != []
    ensures Names(ps) == [ps[0].0] + Names(ps[1..])
  {
    assert Names(ps)[1..] == Names(ps[1..]);
  }

  /** After the first of distinct fresh assignments, the rest are still distinct and fresh. */
  lemma FreshRest<V>(d: Dict<V>, ps: seq<(string, V)>)
    requires d.Valid() && ps != [] && FreshKeys(d, ps)
    ensures Put(d, ps[0].0, ps[0].1).keys == d.keys + [ps[0].0]
    ensures FreshKeys(Put(d, ps[0].0, ps[0].1), ps[1..])
  {
    var rest := ps[1..];
    forall i | 0 <= i < |rest| ensures rest[i].0 !in Put(d, ps[0].0, ps[0].1).values {
      assert rest[i] == ps[i + 1];
    }
    forall i, j | 0 <= i < j < |rest| ensures rest[i].0 != rest[j].0 {
      assert rest[i] == ps[i + 1] && rest[j] == ps[j + 1];
    }
  }
}
