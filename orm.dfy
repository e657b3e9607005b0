/**
 * What the two model constructors have in common: an ORM instance is the
 * map of the attributes that have been assigned, and a constructor runs
 * `for key, value in kwargs.items(): if hasattr(self, key): setattr(self, key, value)`.
 * `kwargs` is kept as the ordered list of keyword arguments.
 */
module Orm {
  import opened Common

  /** A column declaration of a mapped table. */
  datatype Column = Column(name: string, nullable: bool, primaryKey: bool, unique: bool, references: Option<string>)

  /** Attribute lookup: `None` when the attribute was never assigned. */
  function Get<V>(m: map<string, V>, k: string): Option<V>
  {
    if k in m then Some(m[k]) else None
  }

  function Flatten<V>(o: Option<Option<V>>): Option<V>
  {
    match o
    case None => None
    case Some(v) => v
  }

  /** The value the last keyword argument named `k` carries, if any. */
  function Lookup<V>(kwargs: seq<(string, V)>, k: string): Option<V>
  {
    if kwargs == [] then None
    else if kwargs[|kwargs| - 1].0 == k then Some(kwargs[|kwargs| - 1].1)
    else Lookup(kwargs[..|kwargs| - 1], k)
  }

  /** The setattr loop over `kwargs`, restricted to the attribute names `names`, starting from `m`. */
  function Apply<V>(m: map<string, V>, names: set<string>, kwargs: seq<(string, V)>): map<string, V>
  {
    if kwargs == [] then m
    else
      var prev := Apply(m, names, kwargs[..|kwargs| - 1]);
      var kv := kwargs[|kwargs| - 1];
      if kv.0 in names then prev[kv.0 := kv.1] else prev
  }

  /** One more turn of the loop: the assignment of argument `i`, if it names an attribute. */
  lemma ApplyStep<V>(m: map<string, V>, names: set<string>, kwargs: seq<(string, V)>, i: nat)
    requires i < |kwargs|
    ensures Apply(m, names, kwargs[..i + 1])
         == if kwargs[i].0 in names then Apply(m, names, kwargs[..i])[kwargs[i].0 := kwargs[i].1]
            else Apply(m, names, kwargs[..i])
  {
    assert kwargs[..i + 1][..i] == kwargs[..i];
  }

  /**
   * After the loop every attribute named by some keyword argument holds the
   * value of the last such argument, keys that name no attribute are
   * ignored, and every other attribute keeps its value.
   */
  lemma {:induction false} ApplyAt<V>(m: map<string, V>, names: set<string>, kwargs: seq<(string, V)>, k: string)
    ensures Get(Apply(m, names, kwargs), k)
         == if k in names && Lookup(kwargs, k).Some? then Lookup(kwargs, k) else Get(m, k)
  {
    if kwargs != [] {
      ApplyAt(m, names, kwargs[..|kwargs| - 1], k);
    }
  }

  lemma MapsEqual<V>(a: map<string, V>, b: map<string, V>)
    requires forall k :: Get(a, k) == Get(b, k)
    ensures a == b
  {
    assert a.Keys == b.Keys by {
      forall k ensures k in a <==> k in b { assert Get(a, k) == Get(b, k); }
    }
    forall k | k in a ensures a[k] == b[k] { assert Get(a, k) == Get(b, k); }
  }

  /** Running the same assignments a second time changes nothing. */
  lemma ApplyTwice<V>(m: map<string, V>, names: set<string>, kwargs: seq<(string, V)>)
    ensures Apply(Apply(m, names, kwargs), names, kwargs) == Apply(m, names, kwargs)
  {
    var once := Apply(m, names, kwargs);
    forall k ensures Get(Apply(once, names, kwargs), k) == Get(once, k) {
      ApplyAt(once, names, kwargs, k);
      ApplyAt(m, names, kwargs, k);
    }
    MapsEqual(Apply(once, names, kwargs), once);
  }

  /** With distinct keys (a Python dict), the argument at index `i` is the one `Lookup` finds. */
  lemma {:induction false} LookupDistinct<V>(kwargs: seq<(string, V)>, i: nat)
    requires i < |kwargs|
    requires forall a, b :: 0 <= a < b < |kwargs| ==> kwargs[a].0 != kwargs[b].0
    ensures Lookup(kwargs, kwargs[i].0) == Some(kwargs[i].1)
  {
    if i < |kwargs| - 1 {
      LookupDistinct(kwargs[..|kwargs| - 1], i);
    }
  }

  /** `Lookup` finds nothing for a key no argument names. */
  lemma {:induction false} LookupAbsent<V>(kwargs: seq<(string, V)>, k: string)
    requires forall i :: 0 <= i < |kwargs| ==> kwargs[i].0 != k
    ensures Lookup(kwargs, k) == None
  {
    if kwargs != [] {
      LookupAbsent(kwargs[..|kwargs| - 1], k);
    }
  }
}
