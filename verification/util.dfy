/**
 * `util.merge` (lib/util.js): copy every own property of `src` onto `target`
 * and return `target`. JavaScript objects used as dictionaries are the class
 * `Dict`, whose `entries` field the merge updates in place.
 */
module Util {

  /** The dictionary `target` becomes once every entry of `src` is copied onto it. */
  function Merged<V>(target: map<string, V>, src: map<string, V>): (r: map<string, V>)
    ensures forall k :: k in r <==> k in target || k in src
    ensures forall k :: k in src ==> r[k] == src[k]
    ensures forall k :: k in target && k !in src ==> r[k] == target[k]
  {
    target + src
  }

  /** A JavaScript object used as a string-keyed dictionary. */
  class Dict<V> {
    var entries: map<string, V>

    constructor (init: map<string, V>)
      ensures entries == init
    {
      entries := init;
    }

    /** `d[k] = v` */
    method Put(k: string, v: V)
      modifies this
      ensures entries == old(entries)[k := v]
    {
      entries := entries[k := v];
    }
  }

  /**
   * Copies the entries of `src` onto `target` one key at a time, as the
   * `for (k in src)` loop does, and returns `target`. `src` is left as it
   * was, also when it is `target` itself.
   */
  method Merge<V>(target: Dict<V>, src: Dict<V>) returns (r: Dict<V>)
    modifies target
    ensures r == target
    ensures target.entries == Merged(old(target.entries), old(src.entries))
    ensures src.entries == old(src.entries)
  {
    var from := src.entries;
    ghost var before := target.entries;
    var pending := from.Keys;
    ghost var done: set<string> := {};
    while pending != {}
      invariant pending + done == from.Keys && pending !! done
      invariant forall k {:trigger k in target.entries} :: k in target.entries <==> k in before || k in done
      invariant forall k {:trigger target.entries[k]} :: k in done ==> target.entries[k] == from[k]
      invariant forall k {:trigger target.entries[k]} :: k in before && k !in done ==> target.entries[k] == before[k]
      decreases |pending|
    {
      var k :| k in pending;
      target.Put(k, from[k]);
      pending := pending - {k};
      done := done + {k};
    }
    MergedFromParts(target.entries, before, from);
    assert src == target ==> before == from;
    assert Merged(from, from) == from;
    r := target;
  }

  /** A map that agrees with `Merged(before, from)` key by key is that map. */
  lemma MergedFromParts<V>(m: map<string, V>, before: map<string, V>, from: map<string, V>)
    requires forall k :: k in m <==> k in before || k in from
    requires forall k :: k in from ==> m[k] == from[k]
    requires forall k :: k in before && k !in from ==> m[k] == before[k]
    ensures m == Merged(before, from)
  {
  }
}
