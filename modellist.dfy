/** The ordered lists the controller works on (the scene's models, the
    graphics scene's items), seen through the handle each element carries:
    lookup of the first element with a handle, and removal by handle. */
module ModelList {
  import opened ScreenieTypes

  function ModelHandle(m: Model): (h: Handle) { m.handle }

  function ItemModel(i: Item): (h: Handle) { i.model }

  /** Some element of s has handle h. */
  predicate HasKey<T>(s: seq<T>, key: T -> Handle, h: Handle)
  {
    exists j :: 0 <= j < |s| && key(s[j]) == h
  }

  /** No two elements of s have the same handle. */
  predicate DistinctKeys<T>(s: seq<T>, key: T -> Handle)
  {
    forall i, j :: 0 <= i < j < |s| ==> key(s[i]) != key(s[j])
  }

  /** The index of the first element with handle h, or |s| when there is none
      (the linear scans of the controller and of the scene). */
  function FirstIndex<T>(s: seq<T>, key: T -> Handle, h: Handle): (k: nat)
    ensures k <= |s|
    ensures k < |s| <==> HasKey(s, key, h)
    ensures k < |s| ==> key(s[k]) == h
    ensures forall j :: 0 <= j < k ==> key(s[j]) != h
  {
    if s == [] then 0
    else if key(s[0]) == h then 0
    else
      var k' := FirstIndex(s[1..], key, h);
      assert forall j :: 1 <= j < |s| ==> s[1..][j - 1] == s[j];
      1 + k'
  }

  /** Dereferencing a handle: the first element that carries it. */
  function Lookup<T>(s: seq<T>, key: T -> Handle, h: Handle): (x: T)
    requires HasKey(s, key, h)
    ensures x in s && key(x) == h
  {
    s[FirstIndex(s, key, h)]
  }

  /** The elements of s whose handle is not in hs, in their order. */
  function Without<T>(s: seq<T>, key: T -> Handle, hs: set<Handle>): (r: seq<T>)
    ensures |r| <= |s|
  {
    if s == [] then []
    else (if key(s[0]) in hs then [] else [s[0]]) + Without(s[1..], key, hs)
  }

  /** Removal keeps exactly the elements whose handle is not removed. */
  lemma {:induction false} WithoutMembers<T>(s: seq<T>, key: T -> Handle, hs: set<Handle>)
    ensures var r := Without(s, key, hs);
      && (forall j :: 0 <= j < |r| ==> r[j] in s && key(r[j]) !in hs)
      && (forall j :: 0 <= j < |s| && key(s[j]) !in hs ==> s[j] in r)
  {
    if s != [] {
      var t := s[1..];
      WithoutMembers(t, key, hs);
      var head := if key(s[0]) in hs then [] else [s[0]];
      var rt := Without(t, key, hs);
      var r := head + rt;
      forall j | 0 <= j < |r| ensures r[j] in s && key(r[j]) !in hs {
        if j >= |head| { assert r[j] == rt[j - |head|]; }
      }
      forall j | 0 <= j < |s| && key(s[j]) !in hs ensures s[j] in r {
        if j > 0 { assert s[j] == t[j - 1]; assert rt[..] <= r[|head|..]; }
      }
    }
  }

  /** Removing the element at index k of a list with distinct handles is
      removing its handle. */
  lemma {:induction false} RemoveAtIsWithout<T>(s: seq<T>, key: T -> Handle, k: nat)
    requires DistinctKeys(s, key) && k < |s|
    ensures s[..k] + s[k + 1..] == Without(s, key, {key(s[k])})
  {
    var h := key(s[k]);
    var t := s[1..];
    WithoutCons(s, key, {h});
    DistinctTail(s, key);
    if k == 0 {
      WithoutNothing(t, key, {h});
      assert s[..k] + s[k + 1..] == t;
    } else {
      assert t[k - 1] == s[k];
      RemoveAtIsWithout(t, key, k - 1);
      assert s[..k] + s[k + 1..] == [s[0]] + (t[..k - 1] + t[k..]);
    }
  }

  /** The tail of a list with distinct handles has distinct handles, none of
      them the head's. */
  lemma DistinctTail<T>(s: seq<T>, key: T -> Handle)
    requires DistinctKeys(s, key) && s != []
    ensures DistinctKeys(s[1..], key)
    ensures forall j :: 0 <= j < |s[1..]| ==> key(s[1..][j]) != key(s[0])
  {
    var t := s[1..];
    forall j | 0 <= j < |t| ensures key(t[j]) != key(s[0]) {
      assert t[j] == s[j + 1];
    }
    forall i, j | 0 <= i < j < |t| ensures key(t[i]) != key(t[j]) {
      assert t[i] == s[i + 1] && t[j] == s[j + 1];
    }
  }

  /** One step of the recursion of Without. */
  lemma WithoutCons<T>(s: seq<T>, key: T -> Handle, hs: set<Handle>)
    requires s != []
    ensures Without(s, key, hs) == (if key(s[0]) in hs then [] else [s[0]]) + Without(s[1..], key, hs)
  {
  }

  /** Removing handles that no element carries changes nothing. */
  lemma {:induction false} WithoutNothing<T>(s: seq<T>, key: T -> Handle, hs: set<Handle>)
    requires forall j :: 0 <= j < |s| ==> key(s[j]) !in hs
    ensures Without(s, key, hs) == s
  {
    if s != [] {
      WithoutNothing(s[1..], key, hs);
      assert s == [s[0]] + s[1..];
    }
  }

  /** Removing by one set of handles and then another is removing by both. */
  lemma {:induction false} WithoutTwice<T>(s: seq<T>, key: T -> Handle, a: set<Handle>, b: set<Handle>)
    ensures Without(Without(s, key, a), key, b) == Without(s, key, a + b)
  {
    if s != [] {
      WithoutTwice(s[1..], key, a, b);
      var head := if key(s[0]) in a then [] else [s[0]];
      WithoutConcat(head, Without(s[1..], key, a), key, b);
      if key(s[0]) !in a {
        assert Without(head, key, b) == (if key(s[0]) in b then [] else [s[0]]) by {
          assert head[1..] == [];
        }
      }
    }
  }

  /** Removal distributes over concatenation. */
  lemma {:induction false} WithoutConcat<T>(s: seq<T>, t: seq<T>, key: T -> Handle, hs: set<Handle>)
    ensures Without(s + t, key, hs) == Without(s, key, hs) + Without(t, key, hs)
  {
    if s != [] {
      WithoutConcat(s[1..], t, key, hs);
      assert (s + t)[1..] == s[1..] + t;
    } else {
      assert s + t == t;
    }
  }

  /** Removal keeps the handles distinct. */
  lemma {:induction false} WithoutDistinct<T>(s: seq<T>, key: T -> Handle, hs: set<Handle>)
    requires DistinctKeys(s, key)
    ensures DistinctKeys(Without(s, key, hs), key)
  {
    if s != [] {
      var t := s[1..];
      WithoutDistinct(t, key, hs);
      WithoutMembers(t, key, hs);
      var r := Without(t, key, hs);
      forall i | 0 <= i < |r| ensures key(r[i]) != key(s[0]) {
        var j :| 0 <= j < |t| && t[j] == r[i];
        assert s[j + 1] == r[i];
      }
    }
  }

  /** Removing one present handle from a list with distinct handles shortens
      it by exactly one. */
  lemma WithoutOneLength<T>(s: seq<T>, key: T -> Handle, h: Handle)
    requires DistinctKeys(s, key) && HasKey(s, key, h)
    ensures |Without(s, key, {h})| == |s| - 1
  {
    var k := FirstIndex(s, key, h);
    RemoveAtIsWithout(s, key, k);
  }

  /** Looking up a handle that was not removed finds the same element. */
  lemma {:induction false} LookupWithout<T>(s: seq<T>, key: T -> Handle, hs: set<Handle>, h: Handle)
    requires HasKey(s, key, h) && h !in hs
    ensures HasKey(Without(s, key, hs), key, h)
    ensures Lookup(Without(s, key, hs), key, h) == Lookup(s, key, h)
  {
    var r := Without(s, key, hs);
    if key(s[0]) == h {
      assert r[0] == s[0];
    } else {
      var t := s[1..];
      var j :| 0 <= j < |s| && key(s[j]) == h;
      assert t[j - 1] == s[j];
      LookupWithout(t, key, hs, h);
      var head := if key(s[0]) in hs then [] else [s[0]];
      LookupAfter(head, Without(t, key, hs), key, h);
    }
  }

  /** Looking up a handle that the first part of a list does not carry
      looks in the rest. */
  lemma LookupAfter<T>(s: seq<T>, t: seq<T>, key: T -> Handle, h: Handle)
    requires HasKey(t, key, h)
    requires forall j :: 0 <= j < |s| ==> key(s[j]) != h
    ensures HasKey(s + t, key, h) && Lookup(s + t, key, h) == Lookup(t, key, h)
  {
    var k := FirstIndex(t, key, h);
    assert (s + t)[|s| + k] == t[k];
    assert FirstIndex(s + t, key, h) == |s| + k by {
      forall j | 0 <= j < |s| + k ensures key((s + t)[j]) != h {
        if j >= |s| { assert (s + t)[j] == t[j - |s|]; }
      }
    }
  }

  /** Looking up a handle that the first part of a list carries looks there. */
  lemma LookupBefore<T>(s: seq<T>, t: seq<T>, key: T -> Handle, h: Handle)
    requires HasKey(s, key, h)
    ensures HasKey(s + t, key, h) && Lookup(s + t, key, h) == Lookup(s, key, h)
  {
    var k := FirstIndex(s, key, h);
    assert (s + t)[k] == s[k];
    assert FirstIndex(s + t, key, h) == k by {
      forall j | 0 <= j < k ensures key((s + t)[j]) != h {
        assert (s + t)[j] == s[j];
      }
    }
  }

  /** The handles among the first i of a list of distinct handles grow by
      the i-th one, which is not among them yet. */
  lemma PrefixStep(hs: seq<Handle>, i: nat)
    requires i < |hs| && forall a, b :: 0 <= a < b < |hs| ==> hs[a] != hs[b]
    ensures hs[i] !in set k | 0 <= k < i :: hs[k]
    ensures (set k | 0 <= k < i + 1 :: hs[k]) == (set k | 0 <= k < i :: hs[k]) + {hs[i]}
  {
  }
}
