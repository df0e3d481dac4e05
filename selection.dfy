/**
 * The selection state of the image selector widget
 * (image_selector/frontend/src/ImageSelector.tsx).
 *
 * The widget keeps the list of selected image indexes. Clicking a figure
 * toggles its index: an index already in the list is filtered out, any
 * other index is appended. The new list becomes the widget's state and is
 * reported to the host application.
 */
module Selection {
  import opened Wrappers

  /** The list holds each index at most once. */
  ghost predicate NoDuplicates(s: seq<nat>) {
    forall i, j :: 0 <= i < j < |s| ==> s[i] != s[j]
  }

  /** Every index refers to one of `count` images. */
  ghost predicate InBounds(s: seq<nat>, count: nat) {
    forall i :: 0 <= i < |s| ==> s[i] < count
  }

  /** `selected.filter((i) => i !== index)`: every occurrence of `x` dropped, the rest in order. */
  function Remove(s: seq<nat>, x: nat): (r: seq<nat>)
    ensures |r| <= |s|
    ensures forall y :: y in r <==> y in s && y != x
  {
    if s == [] then []
    else (if s[0] == x then [] else [s[0]]) + Remove(s[1..], x)
  }

  /** The new selection after a click on image `index`. */
  function ToggleSeq(s: seq<nat>, index: nat): (r: seq<nat>)
    ensures index in r <==> index !in s
    ensures forall y :: y != index ==> (y in r <==> y in s)
  {
    if index in s then Remove(s, index) else s + [index]
  }

  lemma {:induction false} RemoveAbsent(s: seq<nat>, x: nat)
    requires x !in s
    ensures Remove(s, x) == s
  {
    if s != [] {
      RemoveAbsent(s[1..], x);
    }
  }

  lemma {:induction false} RemoveKeepsNoDuplicates(s: seq<nat>, x: nat)
    requires NoDuplicates(s)
    ensures NoDuplicates(Remove(s, x))
  {
    if s != [] {
      var tail := s[1..];
      assert NoDuplicates(tail) by {
        forall i, j | 0 <= i < j < |tail| ensures tail[i] != tail[j] {
          assert tail[i] == s[i + 1] && tail[j] == s[j + 1];
        }
      }
      RemoveKeepsNoDuplicates(tail, x);
      assert s[0] !in tail by {
        forall j | 0 <= j < |tail| ensures tail[j] != s[0] {
          assert tail[j] == s[j + 1];
        }
      }
      var r := Remove(s, x);
      var rest := Remove(tail, x);
      assert s[0] !in rest;
      if s[0] != x {
        assert r == [s[0]] + rest;
        forall i, j | 0 <= i < j < |r| ensures r[i] != r[j] {
          if i == 0 {
            assert r[j] == rest[j - 1];
          } else {
            assert r[i] == rest[i - 1] && r[j] == rest[j - 1];
          }
        }
      } else {
        assert r == rest;
      }
    }
  }

  /**
   * Removal from a duplicate-free list takes out exactly the one position
   * holding the index and keeps the others in their relative order.
   */
  lemma {:induction false} RemoveAt(s: seq<nat>, k: nat)
    requires NoDuplicates(s)
    requires k < |s|
    ensures Remove(s, s[k]) == s[..k] + s[k + 1..]
  {
    var tail := s[1..];
    assert NoDuplicates(tail) by {
      forall i, j | 0 <= i < j < |tail| ensures tail[i] != tail[j] {
        assert tail[i] == s[i + 1] && tail[j] == s[j + 1];
      }
    }
    if k == 0 {
      assert s[0] !in tail by {
        forall j | 0 <= j < |tail| ensures tail[j] != s[0] {
          assert tail[j] == s[j + 1];
        }
      }
      RemoveAbsent(tail, s[0]);
    } else {
      assert s[0] != s[k];
      assert tail[k - 1] == s[k];
      RemoveAt(tail, k - 1);
      assert s[..k] == [s[0]] + tail[..k - 1];
      assert s[k + 1..] == tail[k..];
    }
  }

  lemma {:induction false} RemoveAppend(s: seq<nat>, t: seq<nat>, x: nat)
    ensures Remove(s + t, x) == Remove(s, x) + Remove(t, x)
  {
    if s == [] {
      assert s + t == t;
    } else {
      assert (s + t)[1..] == s[1..] + t;
      RemoveAppend(s[1..], t, x);
    }
  }

  /** A click keeps the selection free of duplicates. */
  lemma ToggleKeepsNoDuplicates(s: seq<nat>, index: nat)
    requires NoDuplicates(s)
    ensures NoDuplicates(ToggleSeq(s, index))
  {
    if index in s {
      RemoveKeepsNoDuplicates(s, index);
    }
  }

  /**
   * Order: removing a selected index closes the gap it leaves and keeps
   * the rest in order; adding one appends it, so the old list is a prefix.
   */
  lemma ToggleKeepsOrder(s: seq<nat>, index: nat)
    requires NoDuplicates(s)
    ensures index !in s ==> (ToggleSeq(s, index)[..|s|] == s && ToggleSeq(s, index)[|s|..] == [index])
    ensures forall k :: 0 <= k < |s| && s[k] == index ==> ToggleSeq(s, index) == s[..k] + s[k + 1..]
  {
    forall k | 0 <= k < |s| && s[k] == index
      ensures ToggleSeq(s, index) == s[..k] + s[k + 1..]
    {
      RemoveAt(s, k);
    }
  }

  /** Clicks only come from figures 0 .. count-1, so the selection stays in range. */
  lemma ToggleInBounds(s: seq<nat>, index: nat, count: nat)
    requires InBounds(s, count)
    requires index < count
    ensures InBounds(ToggleSeq(s, index), count)
  {
    var r := ToggleSeq(s, index);
    forall i | 0 <= i < |r| ensures r[i] < count {
      assert r[i] in r;
    }
  }

  /** Clicking an unselected image twice gives back the original selection. */
  lemma ToggleTwiceRestores(s: seq<nat>, index: nat)
    requires index !in s
    ensures ToggleSeq(ToggleSeq(s, index), index) == s
  {
    RemoveAppend(s, [index], index);
    RemoveAbsent(s, index);
    assert Remove([index], index) == [];
  }

  /** The React component: its `selected` state and the value it last sent to the host. */
  class Selector {
    var selected: seq<nat>
    var componentValue: Option<seq<nat>>

    /** The state the component keeps between clicks. */
    ghost predicate Valid()
      reads this
    {
      NoDuplicates(selected) &&
      (componentValue.None? ==> selected == []) &&
      (componentValue.Some? ==> componentValue.value == selected)
    }

    /** `useState(Array<number>())`: nothing selected and nothing reported yet. */
    constructor ()
      ensures Valid()
      ensures selected == [] && componentValue == None
    {
      selected := [];
      componentValue := None;
    }

    /** `onClicked(index)`: store the toggled list and report it with `setComponentValue`. */
    method Click(index: nat)
      requires Valid()
      modifies this
      ensures Valid()
      ensures selected == ToggleSeq(old(selected), index)
      ensures componentValue == Some(selected)
      ensures index in selected <==> index !in old(selected)
      ensures forall y :: y != index ==> (y in selected <==> y in old(selected))
    {
      ToggleKeepsNoDuplicates(selected, index);
      var newValue := if index in selected then Remove(selected, index) else selected + [index];
      selected := newValue;
      componentValue := Some(newValue);
    }

    /** The `className` of figure `index`: "selected" exactly when the index is selected. */
    function FigureClass(index: nat): (c: string)
      reads this
      ensures c == "selected" || c == ""
      ensures c == "selected" <==> index in selected
    {
      if index in selected then "selected" else ""
    }
  }
}
