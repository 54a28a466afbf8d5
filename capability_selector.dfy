/**
 * The manual capability picker (components/CapabilitySelector.tsx): a click on a
 * capability removes it from the selection when it is selected, and appends it
 * otherwise. The "Max 3" caption is not enforced.
 */
module CapabilitySelector {
  import opened Sequences

  /** `filter((c) => c !== x)`: `s` without any occurrence of `x`, the rest in order. */
  function Remove<T(==)>(s: seq<T>, x: T): seq<T>
  {
    if s == [] then [] else (if s[0] == x then [] else [s[0]]) + Remove(s[1..], x)
  }

  /** Removal drops every occurrence of `x` and nothing else. */
  lemma {:induction false} RemoveSpec<T>(s: seq<T>, x: T)
    ensures forall y :: y in Remove(s, x) <==> y in s && y != x
    ensures multiset(Remove(s, x)) == multiset(s)[x := 0]
  {
    if s != [] {
      RemoveSpec(s[1..], x);
      assert s == [s[0]] + s[1..];
    }
  }

  /** Removal works piecewise, so the elements that stay keep their order. */
  lemma {:induction false} RemoveConcat<T>(a: seq<T>, b: seq<T>, x: T)
    ensures Remove(a + b, x) == Remove(a, x) + Remove(b, x)
  {
    if a == [] {
      assert a + b == b;
    } else {
      var head := if a[0] == x then [] else [a[0]];
      assert (a + b)[0] == a[0] && (a + b)[1..] == a[1..] + b;
      calc {
        Remove(a + b, x);
        head + Remove(a[1..] + b, x);
        { RemoveConcat(a[1..], b, x); }
        head + (Remove(a[1..], x) + Remove(b, x));
        (head + Remove(a[1..], x)) + Remove(b, x);
      }
    }
  }

  /** Removing a name that does not occur changes nothing. */
  lemma {:induction false} RemoveAbsent<T>(s: seq<T>, x: T)
    requires x !in s
    ensures Remove(s, x) == s
  {
    if s != [] {
      RemoveAbsent(s[1..], x);
      assert s == [s[0]] + s[1..];
    }
  }

  /** `handleToggle`: the selection after a click on `cap`. */
  function Toggle(selected: seq<string>, cap: string): (r: seq<string>)
    ensures cap in r <==> cap !in selected
    ensures forall y :: y != cap ==> (y in r <==> y in selected)
    ensures multiset(r) == if cap in selected then multiset(selected)[cap := 0] else multiset(selected) + multiset{cap}
  {
    RemoveSpec(selected, cap);
    if cap in selected then Remove(selected, cap) else selected + [cap]
  }

  /** Removing the one occurrence of `x` from between two runs without `x` joins the runs. */
  lemma RemoveOnly<T>(before: seq<T>, x: T, after: seq<T>)
    requires x !in before && x !in after
    ensures Remove(before + [x] + after, x) == before + after
  {
    assert Remove([x], x) == [] by {
      assert [x][1..] == [];
    }
    calc {
      Remove(before + [x] + after, x);
      { RemoveConcat(before + [x], after, x); }
      Remove(before + [x], x) + Remove(after, x);
      { RemoveConcat(before, [x], x); }
      Remove(before, x) + Remove([x], x) + Remove(after, x);
      { RemoveAbsent(before, x); RemoveAbsent(after, x); }
      before + [] + after;
    }
    assert before + [] == before;
  }

  /**
   * A click on a selected capability takes out exactly that one, wherever it
   * sits, and leaves the others in their order.
   */
  lemma ToggleSelected(before: seq<string>, cap: string, after: seq<string>)
    requires cap !in before && cap !in after
    ensures Toggle(before + [cap] + after, cap) == before + after
  {
    var s := before + [cap] + after;
    assert s[|before|] == cap;
    RemoveOnly(before, cap, after);
  }

  /** A click on an unselected capability adds it at the end, one longer, with no limit on the size. */
  lemma ToggleUnselected(selected: seq<string>, cap: string)
    requires cap !in selected
    ensures var r := Toggle(selected, cap);
      |r| == |selected| + 1 && r[..|selected|] == selected && r[|selected|] == cap
  {
  }

  /** Two clicks on an unselected capability give back the selection unchanged. */
  lemma ToggleTwiceRestores(selected: seq<string>, cap: string)
    requires cap !in selected
    ensures Toggle(Toggle(selected, cap), cap) == selected
  {
    ToggleSelected(selected, cap, []);
    assert selected + [cap] + [] == selected + [cap];
    assert selected + [] == selected;
  }

  /** Two clicks on a selected capability move it to the end of the selection. */
  lemma ToggleTwiceMovesLast(selected: seq<string>, cap: string)
    requires cap in selected
    ensures Toggle(Toggle(selected, cap), cap) == Remove(selected, cap) + [cap]
  {
    RemoveSpec(selected, cap);
  }

  /** A selection without repeats keeps that property. */
  lemma ToggleKeepsDistinct(selected: seq<string>, cap: string)
    requires Distinct(selected)
    ensures Distinct(Toggle(selected, cap))
  {
    DistinctByMultiset(selected);
    DistinctByMultiset(Toggle(selected, cap));
  }

  /** Clicks on offered capabilities keep the selection within the offered list. */
  lemma ToggleKeepsWithin(available: seq<string>, selected: seq<string>, cap: string)
    requires forall x :: x in selected ==> x in available
    requires cap in available
    ensures forall x :: x in Toggle(selected, cap) ==> x in available
  {
  }
}
