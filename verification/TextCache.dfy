/** `text_cache`: the most recently used texts, in a list that is rearranged in place. */
module TextCache {
  import opened Sequences

  /** A list without the elements equal to one. */
  function Drop<T(==, !new)>(s: seq<T>, t: T): (r: seq<T>)
    ensures t !in r && forall x :: x in r <==> x in s && x != t
  {
    if s == [] then [] else if s[0] == t then Drop(s[1..], t) else [s[0]] + Drop(s[1..], t)
  }

  /** The texts that were ever asked for, each once, the one asked for last in front. */
  function Recent<T(==, !new)>(history: seq<T>): (r: seq<T>)
    ensures forall x :: x in r <==> x in history
  {
    if history == [] then []
    else
      var n := |history| - 1;
      assert history == history[..n] + [history[n]];
      [history[n]] + Drop(Recent(history[..n]), history[n])
  }

  function Front<T>(s: seq<T>, n: nat): seq<T> {
    if |s| <= n then s else s[..n]
  }

  lemma {:induction false} DropNoDup<T(!new)>(s: seq<T>, t: T)
    requires NoDup(s)
    ensures NoDup(Drop(s, t))
  {
    if s != [] {
      assert s[0] !in s[1..];
      DropNoDup(s[1..], t);
    }
  }

  lemma {:induction false} RecentNoDup<T(!new)>(history: seq<T>)
    ensures NoDup(Recent(history))
  {
    if history != [] {
      var n := |history| - 1;
      RecentNoDup(history[..n]);
      DropNoDup(Recent(history[..n]), history[n]);
    }
  }

  /** Of a list without repetitions, dropping an element takes out the one place where it is. */
  lemma {:induction false} DropAt<T(!new)>(s: seq<T>, i: nat)
    requires NoDup(s) && i < |s|
    ensures Drop(s, s[i]) == s[..i] + s[i + 1..]
  {
    if i == 0 {
      DropAbsent(s[1..], s[0]);
    } else {
      DropAt(s[1..], i - 1);
    }
  }

  lemma {:induction false} DropAbsent<T(!new)>(s: seq<T>, t: T)
    requires t !in s
    ensures Drop(s, t) == s
  {
    if s != [] {
      DropAbsent(s[1..], t);
    }
  }

  /** The cache's step on the front of a list is the step on the whole list, seen from the front. */
  lemma HitKeepsFront<T(!new)>(s: seq<T>, max: nat, i: nat)
    requires NoDup(s) && i < |Front(s, max)|
    ensures var f := Front(s, max); [f[i]] + (f[..i] + f[i + 1..]) == Front([s[i]] + Drop(s, s[i]), max)
  {
    DropAt(s, i);
    var f := Front(s, max);
    var rest := s[..i] + s[i + 1..];
    var out := f[..i] + f[i + 1..];
    assert forall k :: 0 <= k < |out| ==> out[k] == rest[k];
    assert out == rest[..|f| - 1];
    assert ([s[i]] + rest)[..|f|] == [s[i]] + rest[..|f| - 1];
  }

  lemma MissKeepsFront<T(!new)>(s: seq<T>, max: nat, t: T)
    requires NoDup(s) && max > 0 && t !in Front(s, max)
    ensures var f := Front(s, max);
            [t] + (if |f| >= max then f[..|f| - 1] else f) == Front([t] + Drop(s, t), max)
  {
    if t in s {
      var i, f :| 0 <= i < |s| && s[i] == t && f == Front(s, max);
      assert forall k :: 0 <= k < |f| ==> f[k] == s[k];
      assert i >= |f|;
      DropAt(s, i);
    } else {
      DropAbsent(s, t);
    }
  }

  class Cache<T(==, !new)> {
    var list: seq<T>
    var max: nat
    ghost var history: seq<T>

    ghost predicate Valid()
      reads this
    {
      max > 0 && list == Front(Recent(history), max)
    }

    constructor (max: nat)
      requires max > 0
      ensures Valid() && this.max == max && history == []
    {
      list, this.max, history := [], max, [];
    }

    /** The list is always the front of the list of all texts by their last use. */
    method Find(t: T) returns (found: T)
      requires Valid()
      modifies this`list, this`history
      ensures Valid() && history == old(history) + [t]
      ensures found == t && list[0] == t
    {
      ghost var all := Recent(history);
      RecentNoDup(history);
      assert (history + [t])[..|history|] == history;
      history := history + [t];
      var it := 0;
      while it < |list| && list[it] != t
        invariant it <= |list| && t !in list[..it]
      {
        it := it + 1;
      }
      if it < |list| {
        HitKeepsFront(all, max, it);
        list := [list[it]] + (list[..it] + list[it + 1..]);
      } else {
        assert list[..it] == list;
        MissKeepsFront(all, max, t);
        if |list| >= max {
          list := list[..|list| - 1];
        }
        list := [t] + list;
      }
      found := list[0];
    }

    /** The list is cut to its new length. Only when nothing was lost, or nothing more could be held, does
        it go on as the front of all texts. */
    method Resize(size: nat)
      requires Valid() && size > 0
      modifies this`list, this`max
      ensures max == size && list == Front(Recent(history), if size < old(max) then size else old(max))
      ensures Valid() <==> size <= old(max) || |Recent(history)| <= old(max)
    {
      while size < |list|
        invariant list == Front(old(list), |list|) && (|list| <= size || |list| <= |old(list)|)
        invariant |list| >= size || list == old(list)
      {
        list := list[..|list| - 1];
      }
      max := size;
    }
  }
}
