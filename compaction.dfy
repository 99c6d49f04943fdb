/** Mark-then-compact: the game loop removes an entity by overwriting its list
    slot with `None` and later rebuilds the list from the slots still holding
    an entity. */
module Compaction {

  datatype Option<T> = None | Some(value: T)

  /** Every element in a slot of its own, as a list looks before any slot is
      marked. */
  function Wrap<T>(s: seq<T>): (r: seq<Option<T>>)
    ensures |r| == |s|
    ensures forall i :: 0 <= i < |s| ==> r[i] == Some(s[i])
  {
    seq(|s|, i requires 0 <= i < |s| => Some(s[i]))
  }

  /** The list comprehension `[x for x in slots if x is not None]`. */
  function Compact<T>(slots: seq<Option<T>>): (r: seq<T>)
    ensures |r| <= |slots|
  {
    if slots == [] then []
    else
      var last := slots[|slots| - 1];
      Compact(slots[..|slots| - 1]) + (if last.Some? then [last.value] else [])
  }

  /** Compaction keeps exactly the entities held in some slot. */
  lemma {:induction false} CompactMembers<T>(slots: seq<Option<T>>)
    ensures forall i :: 0 <= i < |Compact(slots)| ==> Some(Compact(slots)[i]) in slots
    ensures forall i :: 0 <= i < |slots| && slots[i].Some? ==> slots[i].value in Compact(slots)
  {
    if slots != [] {
      var init := slots[..|slots| - 1];
      CompactMembers(init);
      assert slots == init + [slots[|slots| - 1]];
    }
  }

  /** Where an occupied slot's entity lands in the compacted list. */
  lemma {:induction false} CompactPosition<T>(slots: seq<Option<T>>, i: nat) returns (j: nat)
    requires i < |slots| && slots[i].Some?
    ensures j < |Compact(slots)| && Compact(slots)[j] == slots[i].value
    decreases |slots|
  {
    var n := |slots| - 1;
    assert slots == slots[..n] + [slots[n]];
    if i < n {
      j := CompactPosition(slots[..n], i);
    } else {
      j := |Compact(slots[..n])|;
    }
  }

  /** Compaction works slot by slot: compacting a concatenation is the
      concatenation of the compacted parts. Hence survivors keep their
      original relative order and nothing else is reordered. */
  lemma {:induction false} CompactAppend<T>(a: seq<Option<T>>, b: seq<Option<T>>)
    ensures Compact(a + b) == Compact(a) + Compact(b)
    decreases |b|
  {
    if b == [] {
      assert a + b == a;
    } else {
      var b' := b[..|b| - 1];
      assert (a + b)[..|a + b| - 1] == a + b';
      CompactAppend(a, b');
    }
  }

  /** Compacting one more slot keeps what it holds, if anything. */
  lemma CompactSnoc<T>(slots: seq<Option<T>>, x: Option<T>)
    ensures Compact(slots + [x]) == Compact(slots) + (if x.Some? then [x.value] else [])
  {
    assert (slots + [x])[..|slots|] == slots;
  }

  /** A list with no marked slot compacts back to itself. */
  lemma {:induction false} CompactWrap<T>(s: seq<T>)
    ensures Compact(Wrap(s)) == s
  {
    if s != [] {
      var s' := s[..|s| - 1];
      assert Wrap(s)[..|s| - 1] == Wrap(s');
      CompactWrap(s');
    }
  }

  /** `a` is obtained from `b` by deleting elements: the relative order of
      what is kept is the order in `b`. */
  ghost predicate Subseq<T>(a: seq<T>, b: seq<T>)
    decreases |b|
  {
    if a == [] then true
    else if b == [] then false
    else if a[|a| - 1] == b[|b| - 1] then Subseq(a[..|a| - 1], b[..|b| - 1])
    else Subseq(a, b[..|b| - 1])
  }

  /** Appending the same element to both sides keeps a subsequence one. */
  lemma SubseqSnoc<T>(a: seq<T>, b: seq<T>, x: T)
    requires Subseq(a, b)
    ensures Subseq(a + [x], b + [x])
  {
    assert (a + [x])[..|a|] == a;
    assert (b + [x])[..|b|] == b;
  }

  /** Appending an element to the longer side only keeps a subsequence one. */
  lemma {:induction false} SubseqExtend<T>(a: seq<T>, b: seq<T>, x: T)
    requires Subseq(a, b)
    ensures Subseq(a, b + [x])
    decreases |b|, 1
  {
    if a != [] {
      assert (b + [x])[..|b|] == b;
      if a[|a| - 1] == x {
        // The last element may pair with x or, as before, with an element of b.
        SubseqDropLast(a, b);
        SubseqSnoc(a[..|a| - 1], b, x);
        assert a[..|a| - 1] + [x] == a;
      }
    }
  }

  /** Dropping the last element of the shorter side keeps a subsequence one. */
  lemma {:induction false} SubseqDropLast<T>(a: seq<T>, b: seq<T>)
    requires Subseq(a, b) && a != []
    ensures Subseq(a[..|a| - 1], b)
    decreases |b|, 0
  {
    var a' := a[..|a| - 1];
    var b' := b[..|b| - 1];
    if a' != [] {
      if a[|a| - 1] == b[|b| - 1] {
        SubseqExtend(a', b', b[|b| - 1]);
        assert b' + [b[|b| - 1]] == b;
      } else {
        SubseqDropLast(a, b');
        SubseqExtend(a', b', b[|b| - 1]);
        assert b' + [b[|b| - 1]] == b;
      }
    }
  }

  /** Every list is a subsequence of itself. */
  lemma {:induction false} SubseqRefl<T>(s: seq<T>)
    ensures Subseq(s, s)
    decreases |s|
  {
    if s != [] {
      SubseqRefl(s[..|s| - 1]);
    }
  }

  /** Deleting elements twice is deleting elements once. */
  lemma {:induction false} SubseqTrans<T>(a: seq<T>, b: seq<T>, c: seq<T>)
    requires Subseq(a, b) && Subseq(b, c)
    ensures Subseq(a, c)
    decreases |c|
  {
    if a != [] {
      var c', x := c[..|c| - 1], c[|c| - 1];
      assert c' + [x] == c;
      if b[|b| - 1] == x {
        if a[|a| - 1] == x {
          SubseqTrans(a[..|a| - 1], b[..|b| - 1], c');
        } else {
          SubseqTrans(a, b[..|b| - 1], c');
          SubseqExtend(a, c', x);
        }
      } else {
        SubseqTrans(a, b, c');
        SubseqExtend(a, c', x);
      }
    }
  }

  /** The survivors of a compaction form a subsequence of the list that was
      marked: compaction keeps survivors in their original relative order. */
  lemma {:induction false} CompactSubseq<T>(s: seq<T>, slots: seq<Option<T>>)
    requires |slots| == |s|
    requires forall i :: 0 <= i < |s| ==> slots[i] == None || slots[i] == Some(s[i])
    ensures Subseq(Compact(slots), s)
  {
    if s != [] {
      var n := |s| - 1;
      CompactSubseq(s[..n], slots[..n]);
      assert s[..n] + [s[n]] == s;
      if slots[n].Some? {
        assert Compact(slots) == Compact(slots[..n]) + [s[n]];
        SubseqSnoc(Compact(slots[..n]), s[..n], s[n]);
      } else {
        assert Compact(slots) == Compact(slots[..n]);
        SubseqExtend(Compact(slots[..n]), s[..n], s[n]);
      }
    }
  }

  /** No element occurs twice. */
  ghost predicate Distinct<T>(s: seq<T>)
  {
    forall i, j :: 0 <= i < j < |s| ==> s[i] != s[j]
  }

  /** No element occurs in two slots. */
  ghost predicate SlotsDistinct<T>(slots: seq<Option<T>>)
  {
    forall i, j :: 0 <= i < j < |slots| && slots[i].Some? && slots[j].Some? ==>
      slots[i].value != slots[j].value
  }

  /** Marking slots of a list without duplicates leaves no element in two
      slots. */
  lemma MarkedDistinct<T>(s: seq<T>, slots: seq<Option<T>>)
    requires Distinct(s) && |slots| == |s|
    requires forall i :: 0 <= i < |s| ==> slots[i] == None || slots[i] == Some(s[i])
    ensures SlotsDistinct(slots)
  {
  }

  /** Compacting slots that hold no element twice gives a list without
      duplicates. */
  lemma {:induction false} CompactDistinct<T>(slots: seq<Option<T>>)
    requires SlotsDistinct(slots)
    ensures Distinct(Compact(slots))
  {
    if slots != [] {
      var n := |slots| - 1;
      assert SlotsDistinct(slots[..n]);
      CompactDistinct(slots[..n]);
      if slots[n].Some? {
        var c := Compact(slots[..n]);
        CompactMembers(slots[..n]);
        forall i | 0 <= i < |c|
          ensures c[i] != slots[n].value
        {
          var k :| 0 <= k < n && slots[..n][k] == Some(c[i]);
        }
      }
    }
  }

  /** Slots that are all occupied compact to their contents, slot by slot. */
  lemma {:induction false} CompactFull<T>(slots: seq<Option<T>>)
    requires forall i :: 0 <= i < |slots| ==> slots[i].Some?
    ensures |Compact(slots)| == |slots|
    ensures forall i :: 0 <= i < |slots| ==> Compact(slots)[i] == slots[i].value
  {
    if slots != [] {
      CompactFull(slots[..|slots| - 1]);
    }
  }
}
