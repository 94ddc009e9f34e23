/**
 * The game's record of the keys held down: a list used as a set, each key
 * at most once, in the order the keys were first pressed.
 */
module PressedKeys {

  /** No key occurs twice. */
  predicate NoDuplicates<K(==, !new)>(s: seq<K>)
  {
    forall i, j :: 0 <= i < j < |s| ==> s[i] != s[j]
  }

  /** `s` without any occurrence of `k`, the others in their order (`retain(|x| x != k)`). */
  function Without<K(==, !new)>(s: seq<K>, k: K): (r: seq<K>)
    ensures k !in r
    ensures forall x :: x in r <==> x in s && x != k
    ensures |r| <= |s|
  {
    if s == [] then []
    else
      var init := Without(s[..|s| - 1], k);
      var last := s[|s| - 1];
      assert forall x :: x in s <==> x in s[..|s| - 1] || x == last;
      if last == k then init else init + [last]
  }

  /** Removing a key that is not there changes nothing. */
  lemma {:induction false} WithoutAbsent<K(!new)>(s: seq<K>, k: K)
    requires k !in s
    ensures Without(s, k) == s
  {
    if s != [] {
      WithoutAbsent(s[..|s| - 1], k);
      assert s == s[..|s| - 1] + [s[|s| - 1]];
    }
  }

  /**
   * Removal works piece by piece, so the kept keys stay in their relative
   * order.
   */
  lemma {:induction false} WithoutConcat<K(!new)>(a: seq<K>, b: seq<K>, k: K)
    ensures Without(a + b, k) == Without(a, k) + Without(b, k)
  {
    if b == [] {
      assert a + b == a;
    } else {
      assert (a + b)[..|a + b| - 1] == a + b[..|b| - 1];
      WithoutConcat(a, b[..|b| - 1], k);
    }
  }

  /** Every occurrence of `k` goes, every other key keeps its count. */
  lemma {:induction false} WithoutMultiset<K(!new)>(s: seq<K>, k: K)
    ensures multiset(Without(s, k)) == multiset(s)[k := 0]
  {
    if s != [] {
      var init := s[..|s| - 1];
      WithoutMultiset(init, k);
      assert s == init + [s[|s| - 1]];
    }
  }

  /** Removal keeps a duplicate-free list duplicate-free. */
  lemma {:induction false} WithoutNoDuplicates<K(!new)>(s: seq<K>, k: K)
    requires NoDuplicates(s)
    ensures NoDuplicates(Without(s, k))
  {
    if s != [] {
      var init := s[..|s| - 1];
      assert NoDuplicates(init) by {
        assert forall i :: 0 <= i < |init| ==> init[i] == s[i];
      }
      WithoutNoDuplicates(init, k);
      var last := s[|s| - 1];
      assert last !in init by {
        assert forall i :: 0 <= i < |init| ==> init[i] == s[i];
      }
    }
  }

  /** The game; only the pressed-key list takes part in this model. */
  class Game<K(==, !new)> {
    var keyPressed: seq<K>

    ghost predicate Valid()
      reads this
    {
      NoDuplicates(keyPressed)
    }

    /** `Game::new`: no key is held down. */
    constructor ()
      ensures Valid() && keyPressed == []
    {
      keyPressed := [];
    }

    /** `add_key_pressed`: a key not yet held down is appended; a held key changes nothing. */
    method AddKeyPressed(key: K)
      requires Valid()
      modifies this
      ensures Valid()
      ensures old(key in keyPressed) ==> keyPressed == old(keyPressed)
      ensures old(key !in keyPressed) ==> keyPressed == old(keyPressed) + [key]
    {
      if key !in keyPressed {
        keyPressed := keyPressed + [key];
      }
    }

    /** `remove_key_pressed`: the key is dropped wherever it occurs, the others kept in order. */
    method RemoveKeyPressed(key: K)
      requires Valid()
      modifies this
      ensures Valid() && key !in keyPressed
      ensures keyPressed == Without(old(keyPressed), key)
    {
      if key in keyPressed {
        WithoutNoDuplicates(keyPressed, key);
        keyPressed := Without(keyPressed, key);
      } else {
        WithoutAbsent(keyPressed, key);
      }
    }
  }
}
