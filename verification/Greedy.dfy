/** Filling pieces greedily with consecutive items.  Two loops of the chat channel do this: chunks are
    filled with the items of a line (no padding), messages with lines (one byte of padding per line). */
module Greedy {
  import opened Text

  /** The bytes a group of items needs, each item followed by `pad` further bytes. */
  function Cost(group: seq<string>, pad: nat): nat {
    if group == [] then 0 else ByteLen(group[0]) + pad + Cost(group[1..], pad)
  }

  lemma {:induction false} CostAppend(a: seq<string>, b: seq<string>, pad: nat)
    ensures Cost(a + b, pad) == Cost(a, pad) + Cost(b, pad)
  {
    if a == [] {
      assert a + b == b;
    } else {
      CostAppend(a[1..], b, pad);
      assert (a + b)[1..] == a[1..] + b;
    }
  }

  /** A group may be sent: it is not empty, and it fits or cannot be made smaller. */
  predicate Admissible(group: seq<string>, pad: nat, cap: nat) {
    group != [] && (Cost(group, pad) <= cap || |group| == 1)
  }

  /** The length of the longest admissible prefix that extends the first `from` items. */
  function Fill(items: seq<string>, pad: nat, cap: nat, from: nat): (k: nat)
    requires 1 <= from <= |items|
    requires Admissible(items[..from], pad, cap)
    ensures from <= k <= |items|
    ensures Admissible(items[..k], pad, cap)
    ensures k < |items| ==> Cost(items[..k + 1], pad) > cap
    decreases |items| - from
  {
    if from < |items| && Cost(items[..from + 1], pad) <= cap
    then Fill(items, pad, cap, from + 1)
    else from
  }

  /** Repeatedly take the longest admissible prefix. */
  function Groups(items: seq<string>, pad: nat, cap: nat): seq<seq<string>> {
    if items == [] then [] else
      var k := Fill(items, pad, cap, 1);
      [items[..k]] + Groups(items[k..], pad, cap)
  }

  // ---------- what makes a division greedy ----------

  predicate AllAdmissible(groups: seq<seq<string>>, pad: nat, cap: nat) {
    forall i :: 0 <= i < |groups| ==> Admissible(groups[i], pad, cap)
  }

  /** No group has room for the first item of the group behind it. */
  predicate NoRoom(groups: seq<seq<string>>, pad: nat, cap: nat) {
    forall i :: 0 <= i < |groups| - 1 && groups[i + 1] != [] ==> Cost(groups[i] + [groups[i + 1][0]], pad) > cap
  }

  predicate IsGreedyDivision(groups: seq<seq<string>>, items: seq<string>, pad: nat, cap: nat) {
    Flatten(groups) == items && AllAdmissible(groups, pad, cap) && NoRoom(groups, pad, cap)
  }

  lemma {:induction false} GroupsAreGreedy(items: seq<string>, pad: nat, cap: nat)
    ensures IsGreedyDivision(Groups(items, pad, cap), items, pad, cap)
  {
    if items != [] {
      var k := Fill(items, pad, cap, 1);
      var rest := Groups(items[k..], pad, cap);
      GroupsAreGreedy(items[k..], pad, cap);
      var groups := Groups(items, pad, cap);
      assert groups == [items[..k]] + rest && groups[1..] == rest;
      assert items == items[..k] + items[k..];
      forall i | 0 <= i < |groups|
        ensures Admissible(groups[i], pad, cap)
      {
        if i > 0 { assert groups[i] == rest[i - 1]; }
      }
      forall i | 0 <= i < |groups| - 1 && groups[i + 1] != []
        ensures Cost(groups[i] + [groups[i + 1][0]], pad) > cap
      {
        if i == 0 {
          assert rest[0] == Flatten(rest)[..|rest[0]|];
          assert items[..k] + [rest[0][0]] == items[..k + 1];
        } else {
          assert groups[i] == rest[i - 1] && groups[i + 1] == rest[i];
        }
      }
    }
  }

  /** A greedy division is determined by its items: `Groups` is the only one. */
  lemma {:induction false} GreedyIsUnique(groups: seq<seq<string>>, items: seq<string>, pad: nat, cap: nat)
    requires IsGreedyDivision(groups, items, pad, cap)
    ensures groups == Groups(items, pad, cap)
    decreases |groups|
  {
    if groups != [] {
      var first, rest := groups[0], groups[1..];
      assert Admissible(first, pad, cap);
      assert items == first + Flatten(rest);
      forall i | 0 <= i < |rest|
        ensures Admissible(rest[i], pad, cap)
      {
        assert rest[i] == groups[i + 1];
      }
      forall i | 0 <= i < |rest| - 1 && rest[i + 1] != []
        ensures Cost(rest[i] + [rest[i + 1][0]], pad) > cap
      {
        assert rest[i] == groups[i + 1] && rest[i + 1] == groups[i + 2];
      }
      GreedyIsUnique(rest, Flatten(rest), pad, cap);
      if rest == [] {
        assert items == first;
        GroupsOfAdmissible(first, pad, cap);
        assert groups == [first];
      } else {
        assert Admissible(rest[0], pad, cap);
        var next := rest[0][0];
        var more := Flatten(rest)[1..];
        assert Flatten(rest) == [next] + more;
        GroupsStep(first, next, more, pad, cap);
        Associative(first, [next], more);
        assert groups == [first] + rest;
      }
    }
  }

  // ---------- the steps of the loops ----------

  lemma {:induction false} FillStops(cur: seq<string>, next: string, more: seq<string>, pad: nat, cap: nat, from: nat)
    requires 1 <= from <= |cur| && Admissible(cur, pad, cap)
    requires Admissible((cur + [next] + more)[..from], pad, cap)
    requires Cost(cur + [next], pad) > cap
    ensures Fill(cur + [next] + more, pad, cap, from) == |cur|
    decreases |cur| - from
  {
    var items := cur + [next] + more;
    if from == |cur| {
      assert items[..from + 1] == cur + [next];
    } else {
      assert items[..from + 1] + cur[from + 1..] == cur;
      CostAppend(items[..from + 1], cur[from + 1..], pad);
      FillStops(cur, next, more, pad, cap, from + 1);
    }
  }

  lemma GroupsUnfold(items: seq<string>, pad: nat, cap: nat, first: seq<string>, rest: seq<string>)
    requires first != [] && items == first + rest && Fill(items, pad, cap, 1) == |first|
    ensures Groups(items, pad, cap) == [first] + Groups(rest, pad, cap)
  {}

  /** A group that has no room for the next item is complete. */
  lemma GroupsStep(cur: seq<string>, next: string, more: seq<string>, pad: nat, cap: nat)
    requires Admissible(cur, pad, cap) && Cost(cur + [next], pad) > cap
    ensures Groups(cur + [next] + more, pad, cap) == [cur] + Groups([next] + more, pad, cap)
  {
    FillStops(cur, next, more, pad, cap, 1);
    Associative(cur, [next], more);
    GroupsUnfold(cur + [next] + more, pad, cap, cur, [next] + more);
  }

  lemma {:induction false} FillAll(items: seq<string>, pad: nat, cap: nat, from: nat)
    requires 1 <= from <= |items| && Admissible(items, pad, cap)
    requires Admissible(items[..from], pad, cap)
    ensures Fill(items, pad, cap, from) == |items|
    decreases |items| - from
  {
    if from < |items| {
      assert items[..from + 1] + items[from + 1..] == items;
      CostAppend(items[..from + 1], items[from + 1..], pad);
      FillAll(items, pad, cap, from + 1);
    }
  }

  /** Items that are admissible together form one group. */
  lemma GroupsOfAdmissible(items: seq<string>, pad: nat, cap: nat)
    requires Admissible(items, pad, cap)
    ensures Groups(items, pad, cap) == [items]
  {
    FillAll(items, pad, cap, 1);
    assert items + [] == items;
    GroupsUnfold(items, pad, cap, items, []);
  }

  /** The state of a filling loop: `done` is complete, `cur` is being filled, `rest` is still to come. */
  predicate Filling(items: seq<string>, done: seq<seq<string>>, cur: seq<string>, rest: seq<string>,
                    pad: nat, cap: nat)
  {
    && Groups(items, pad, cap) == done + Groups(cur + rest, pad, cap)
    && (cur != [] ==> Admissible(cur, pad, cap))
  }

  lemma FillingStart(items: seq<string>, pad: nat, cap: nat)
    ensures Filling(items, [], [], items, pad, cap)
  {
    assert [] + items == items;
  }

  lemma FillingKeep(items: seq<string>, done: seq<seq<string>>, cur: seq<string>, rest: seq<string>,
                    pad: nat, cap: nat)
    requires rest != [] && Filling(items, done, cur, rest, pad, cap)
    requires cur == [] || Cost(cur + [rest[0]], pad) <= cap
    ensures Filling(items, done, cur + [rest[0]], rest[1..], pad, cap)
  {
    assert cur + [rest[0]] + rest[1..] == cur + rest;
  }

  lemma FillingCut(items: seq<string>, done: seq<seq<string>>, cur: seq<string>, rest: seq<string>,
                   pad: nat, cap: nat)
    requires rest != [] && Filling(items, done, cur, rest, pad, cap)
    requires cur != [] && Cost(cur + [rest[0]], pad) > cap
    ensures Filling(items, done + [cur], [rest[0]], rest[1..], pad, cap)
  {
    var next, more := rest[0], rest[1..];
    GroupsStep(cur, next, more, pad, cap);
    assert cur + [next] + more == cur + rest;
    Associative(done, [cur], Groups([next] + more, pad, cap));
  }

  lemma FillingEnd(items: seq<string>, done: seq<seq<string>>, cur: seq<string>, pad: nat, cap: nat)
    requires Filling(items, done, cur, [], pad, cap)
    ensures Groups(items, pad, cap) == if cur == [] then done else done + [cur]
  {
    assert cur + [] == cur;
    if cur != [] {
      GroupsOfAdmissible(cur, pad, cap);
    }
  }

  // ---------- optimality ----------

  predicate AllFit(groups: seq<seq<string>>, pad: nat, cap: nat) {
    forall i :: 0 <= i < |groups| ==> Cost(groups[i], pad) <= cap
  }

  /** Greedy stays ahead: for any part of the items behind position `j`, the greedy division is no longer
      than any division of all the items into groups that fit. */
  lemma {:induction false} GreedyStaysAhead(items: seq<string>, j: nat, others: seq<seq<string>>, pad: nat, cap: nat)
    requires j <= |items| && Flatten(others) == items && AllFit(others, pad, cap)
    ensures |Groups(items[j..], pad, cap)| <= |others|
    decreases |others|, |items| - j
  {
    if j < |items| {
      var m, rest := |others[0]|, others[1..];
      assert items == others[0] + Flatten(rest);
      assert items[m..] == Flatten(rest);
      if m <= j {
        GreedyStaysAhead(items[m..], j - m, rest, pad, cap);
        assert items[m..][j - m..] == items[j..];
      } else {
        var tail := items[j..];
        var k := Fill(tail, pad, cap, 1);
        if j + k < m {
          assert others[0] == items[..j] + tail[..k + 1] + items[j + k + 1..m];
          CostAppend(items[..j], tail[..k + 1], pad);
          CostAppend(items[..j] + tail[..k + 1], items[j + k + 1..m], pad);
          assert false;
        }
        GreedyStaysAhead(items[m..], j + k - m, rest, pad, cap);
        assert items[m..][j + k - m..] == tail[k..];
      }
    }
  }

  /** No division into groups that fit uses fewer groups than the greedy one. */
  lemma {:induction false} GreedyIsOptimal(items: seq<string>, others: seq<seq<string>>, pad: nat, cap: nat)
    requires Flatten(others) == items && AllFit(others, pad, cap)
    ensures |Groups(items, pad, cap)| <= |others|
  {
    GreedyStaysAhead(items, 0, others, pad, cap);
    assert items[0..] == items;
  }

  // ---------- when everything fits ----------

  lemma {:induction false} CostAtLeast(group: seq<string>, i: nat, pad: nat)
    requires i < |group|
    ensures ByteLen(group[i]) + pad <= Cost(group, pad)
    decreases i
  {
    if i > 0 {
      CostAtLeast(group[1..], i - 1, pad);
    }
  }

  predicate EachFits(items: seq<string>, pad: nat, cap: nat) {
    forall i :: 0 <= i < |items| ==> ByteLen(items[i]) + pad <= cap
  }

  /** All groups fit exactly when every single item does. */
  lemma {:induction false} GroupsFitExactly(items: seq<string>, pad: nat, cap: nat)
    ensures AllFit(Groups(items, pad, cap), pad, cap) <==> EachFits(items, pad, cap)
  {
    if items != [] {
      var k := Fill(items, pad, cap, 1);
      var first, rest := items[..k], items[k..];
      GroupsFitExactly(rest, pad, cap);
      ConsFits(first, Groups(rest, pad, cap), pad, cap);
      EachFitsSplit(items, k, pad, cap);
      FitsTogether(first, pad, cap);
    }
  }

  lemma EachFitsSplit(items: seq<string>, k: nat, pad: nat, cap: nat)
    requires k <= |items|
    ensures EachFits(items, pad, cap) <==> EachFits(items[..k], pad, cap) && EachFits(items[k..], pad, cap)
  {}

  lemma ConsFits(first: seq<string>, groups: seq<seq<string>>, pad: nat, cap: nat)
    ensures AllFit([first] + groups, pad, cap) <==> Cost(first, pad) <= cap && AllFit(groups, pad, cap)
  {
    var all := [first] + groups;
    assert forall i :: 0 <= i < |groups| ==> groups[i] == all[i + 1];
    assert all[0] == first;
  }

  lemma {:induction false} FitsTogether(group: seq<string>, pad: nat, cap: nat)
    requires Admissible(group, pad, cap)
    ensures Cost(group, pad) <= cap <==> EachFits(group, pad, cap)
  {
    forall i | 0 <= i < |group|
      ensures ByteLen(group[i]) + pad <= Cost(group, pad)
    {
      CostAtLeast(group, i, pad);
    }
    if |group| == 1 {
      assert Cost(group[1..], pad) == 0;
    }
  }
}
