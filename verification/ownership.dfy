/**
 * The move-only handle discipline of the generator classes (Generator of Coroutines_01,
 * _03 and _05; the destructors of Coroutines_02, _20, _21, _22 and _24 follow the same rule):
 * each object holds a coroutine_handle or nothing; moving transfers the handle and empties
 * the source; move assignment first destroys the frame the target owned, unless source and
 * target are the same object; the destructor destroys the frame iff the handle is non-empty.
 * Copying is deleted, so no operation duplicates a handle.
 *
 * A store lists the generator objects by position (an object that has been destroyed keeps
 * its position with an empty handle), the frames that are alive, the frames that have been
 * destroyed, and the next fresh frame number.
 */
module Ownership {
  import opened Wrappers

  type FrameId = nat

  datatype Store = Store(objects: seq<Option<FrameId>>, live: set<FrameId>, destroyed: set<FrameId>, next: FrameId)

  /**
   * Every handle points to a live frame, no two objects share a frame, every live frame has
   * an owner (nothing leaks), and no frame is both alive and destroyed.
   */
  ghost predicate Owned(s: Store) {
    (forall i :: 0 <= i < |s.objects| && s.objects[i].Some? ==> s.objects[i].value in s.live) &&
    (forall i, j :: 0 <= i < j < |s.objects| && s.objects[i].Some? ==> s.objects[i] != s.objects[j]) &&
    (forall h :: h in s.live ==> exists i :: 0 <= i < |s.objects| && s.objects[i] == Some(h)) &&
    (forall h :: h in s.live || h in s.destroyed ==> h < s.next) &&
    s.live !! s.destroyed
  }

  function Empty(): (s: Store)
    ensures Owned(s)
  {
    Store([], {}, {}, 0)
  }

  /** Calling a coroutine: a fresh frame, owned by the new generator object. */
  function Spawn(s: Store): (r: Store)
    ensures |r.objects| == |s.objects| + 1 && r.objects[..|s.objects|] == s.objects
    ensures r.objects[|s.objects|].Some? && r.destroyed == s.destroyed
    ensures r.live == s.live + {r.objects[|s.objects|].value}
    ensures Owned(s) ==> Owned(r) && r.objects[|s.objects|].value !in s.live + s.destroyed
  {
    var h := s.next;
    var r := Store(s.objects + [Some(h)], s.live + {h}, s.destroyed, s.next + 1);
    assert Owned(s) ==> r.objects[|s.objects|] == Some(h) && h !in s.live + s.destroyed;
    r
  }

  /** `Generator() = default;`: an object with an empty handle. */
  function DefaultConstruct(s: Store): (r: Store)
    ensures |r.objects| == |s.objects| + 1 && r.objects[|s.objects|] == None
    ensures r.live == s.live && r.destroyed == s.destroyed
    ensures Owned(s) ==> Owned(r)
  {
    var r := Store(s.objects + [None], s.live, s.destroyed, s.next);
    assert Owned(s) ==> Owned(r) by {
      if Owned(s) {
        forall h | h in r.live ensures exists i :: 0 <= i < |r.objects| && r.objects[i] == Some(h) {
          var i :| 0 <= i < |s.objects| && s.objects[i] == Some(h);
          assert r.objects[i] == Some(h);
        }
      }
    }
    r
  }

  /** `Generator(Generator&& other)`: the new object takes the handle, the source is emptied. */
  function MoveConstruct(s: Store, src: nat): (r: Store)
    requires src < |s.objects|
    ensures |r.objects| == |s.objects| + 1
    ensures r.objects[|s.objects|] == s.objects[src] && r.objects[src] == None
    ensures forall i :: 0 <= i < |s.objects| && i != src ==> r.objects[i] == s.objects[i]
    ensures r.live == s.live && r.destroyed == s.destroyed
    ensures Owned(s) ==> Owned(r)
  {
    var r := Store(s.objects[src := None] + [s.objects[src]], s.live, s.destroyed, s.next);
    assert Owned(s) ==> Owned(r) by {
      if Owned(s) {
        forall h | h in r.live ensures exists i :: 0 <= i < |r.objects| && r.objects[i] == Some(h) {
          var i :| 0 <= i < |s.objects| && s.objects[i] == Some(h);
          if i == src {
            assert r.objects[|s.objects|] == Some(h);
          } else {
            assert r.objects[i] == Some(h);
          }
        }
      }
    }
    r
  }

  /** coroutine_handle::destroy() on the frame an object owns, if it owns one. */
  function Release(s: Store, h: Option<FrameId>): Store
  {
    if h.Some? then s.(live := s.live - {h.value}, destroyed := s.destroyed + {h.value}) else s
  }

  /**
   * `operator=(Generator&& other)`: unless it is a self-assignment, destroy the frame the
   * target owns, take over the source's handle and empty the source.
   */
  function MoveAssign(s: Store, dst: nat, src: nat): (r: Store)
    requires dst < |s.objects| && src < |s.objects|
    ensures |r.objects| == |s.objects|
    ensures dst == src ==> r == s
    ensures dst != src ==> r.objects[dst] == s.objects[src] && r.objects[src] == None
    ensures dst != src ==> forall i :: 0 <= i < |s.objects| && i != src && i != dst ==> r.objects[i] == s.objects[i]
    ensures dst != src && s.objects[dst].Some? ==> r.destroyed == s.destroyed + {s.objects[dst].value}
    ensures s.objects[dst].None? ==> r.destroyed == s.destroyed && r.live == s.live
    ensures Owned(s) && dst != src && s.objects[dst].Some? ==>
      s.objects[dst].value !in s.destroyed && r.live == s.live - {s.objects[dst].value}
    ensures Owned(s) ==> Owned(r)
  {
    if dst == src then s
    else
      var t := Release(s, s.objects[dst]);
      var r := t.(objects := s.objects[dst := s.objects[src]][src := None]);
      assert Owned(s) ==> Owned(r) by {
        if Owned(s) {
          MoveAssignKeepsOwned(s, dst, src, r);
        }
      }
      r
  }

  lemma MoveAssignKeepsOwned(s: Store, dst: nat, src: nat, r: Store)
    requires dst < |s.objects| && src < |s.objects| && dst != src && Owned(s)
    requires r == Release(s, s.objects[dst]).(objects := s.objects[dst := s.objects[src]][src := None])
    ensures Owned(r)
  {
    MoveAssignHandlesLive(s, dst, src, r);
    MoveAssignNoSharing(s, dst, src, r);
    MoveAssignNoLeak(s, dst, src, r);
  }

  lemma MoveAssignHandlesLive(s: Store, dst: nat, src: nat, r: Store)
    requires dst < |s.objects| && src < |s.objects| && dst != src && Owned(s)
    requires r == Release(s, s.objects[dst]).(objects := s.objects[dst := s.objects[src]][src := None])
    ensures forall i :: 0 <= i < |r.objects| && r.objects[i].Some? ==> r.objects[i].value in r.live
  {
    forall i | 0 <= i < |r.objects| && r.objects[i].Some? ensures r.objects[i].value in r.live {
      var k := if i == dst then src else i;
      assert r.objects[i] == s.objects[k];
      if s.objects[dst].Some? {
        assert s.objects[k] != s.objects[dst];
      }
    }
  }

  lemma MoveAssignNoSharing(s: Store, dst: nat, src: nat, r: Store)
    requires dst < |s.objects| && src < |s.objects| && dst != src && Owned(s)
    requires r == Release(s, s.objects[dst]).(objects := s.objects[dst := s.objects[src]][src := None])
    ensures forall i, j :: 0 <= i < j < |r.objects| && r.objects[i].Some? ==> r.objects[i] != r.objects[j]
  {
    forall i, j | 0 <= i < j < |r.objects| && r.objects[i].Some? ensures r.objects[i] != r.objects[j] {
      var ki := if i == dst then src else i;
      var kj := if j == dst then src else j;
      if r.objects[j].Some? {
        assert ki != kj;
        assert r.objects[i] == s.objects[ki] && r.objects[j] == s.objects[kj];
        if ki < kj {
          assert s.objects[ki] != s.objects[kj];
        } else {
          assert s.objects[kj] != s.objects[ki];
        }
      }
    }
  }

  lemma MoveAssignNoLeak(s: Store, dst: nat, src: nat, r: Store)
    requires dst < |s.objects| && src < |s.objects| && dst != src && Owned(s)
    requires r == Release(s, s.objects[dst]).(objects := s.objects[dst := s.objects[src]][src := None])
    ensures forall h :: h in r.live ==> exists i :: 0 <= i < |r.objects| && r.objects[i] == Some(h)
  {
    forall h | h in r.live ensures exists i :: 0 <= i < |r.objects| && r.objects[i] == Some(h) {
      var i :| 0 <= i < |s.objects| && s.objects[i] == Some(h);
      if i == src {
        assert r.objects[dst] == Some(h);
      } else {
        assert i != dst;
        assert r.objects[i] == Some(h);
      }
    }
  }

  /** `~Generator()`: destroy the frame iff the handle is non-empty; the object is gone. */
  function Destruct(s: Store, i: nat): (r: Store)
    requires i < |s.objects|
    ensures |r.objects| == |s.objects| && r.objects[i] == None
    ensures forall j :: 0 <= j < |s.objects| && j != i ==> r.objects[j] == s.objects[j]
    ensures s.objects[i].None? ==> r.live == s.live && r.destroyed == s.destroyed
    ensures s.objects[i].Some? ==> r.destroyed == s.destroyed + {s.objects[i].value}
    ensures Owned(s) && s.objects[i].Some? ==>
      s.objects[i].value !in s.destroyed && r.live == s.live - {s.objects[i].value}
    ensures Owned(s) ==> Owned(r)
  {
    var r := Release(s, s.objects[i]).(objects := s.objects[i := None]);
    assert Owned(s) ==> Owned(r) by {
      if Owned(s) {
        forall h | h in r.live ensures exists k :: 0 <= k < |r.objects| && r.objects[k] == Some(h) {
          var k :| 0 <= k < |s.objects| && s.objects[k] == Some(h);
          assert k != i;
          assert r.objects[k] == Some(h);
        }
        forall j, k | 0 <= j < k < |r.objects| && r.objects[j].Some? ensures r.objects[j] != r.objects[k] {
          assert s.objects[j] != s.objects[k];
        }
      }
    }
    r
  }

  /** Destroy the objects at positions from, ..., |objects|-1 in turn (the end of their scope). */
  function DestructFrom(s: Store, from: nat): (r: Store)
    requires from <= |s.objects|
    ensures |r.objects| == |s.objects| && r.objects[..from] == s.objects[..from]
    ensures forall j :: from <= j < |r.objects| ==> r.objects[j] == None
    ensures Owned(s) ==> Owned(r)
    decreases |s.objects| - from
  {
    if from == |s.objects| then s else DestructFrom(Destruct(s, from), from + 1)
  }

  /**
   * When every generator object has been destroyed, every frame that was ever created has
   * been destroyed exactly once: nothing leaks and nothing is destroyed twice.
   */
  lemma NoLeak(s: Store)
    requires Owned(s)
    ensures DestructFrom(s, 0).live == {}
    ensures DestructFrom(s, 0).destroyed == s.destroyed + s.live
  {
    var r := DestructFrom(s, 0);
    assert forall h :: h !in r.live;
    DestructFromDestroys(s, 0);
  }

  lemma {:induction false} DestructFromDestroys(s: Store, from: nat)
    requires from <= |s.objects| && Owned(s)
    ensures DestructFrom(s, from).live + DestructFrom(s, from).destroyed == s.live + s.destroyed
    decreases |s.objects| - from
  {
    if from < |s.objects| {
      var t := Destruct(s, from);
      DestructFromDestroys(t, from + 1);
    }
  }
}
