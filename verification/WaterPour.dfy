/** Measuring water with two jugs: breadth-first search over the states of the jugs. */
module WaterPour {

  datatype State = State(big: int, small: int)

  datatype Step = Step(st: State, parent: int)

  const START := State(0, 0)

  function Min(a: int, b: int): int {
    if a < b then a else b
  }

  function Emptied(s: State): (ts: seq<State>) {
    (if s.big > 0 then [State(0, s.small)] else []) + (if s.small > 0 then [State(s.big, 0)] else [])
  }

  function Filled(s: State, kBig: int, kSmall: int): (ts: seq<State>) {
    (if s.big < kBig then [State(kBig, s.small)] else []) + (if s.small < kSmall then [State(s.big, kSmall)] else [])
  }

  function Poured(s: State, kBig: int, kSmall: int): (ts: seq<State>) {
    (if s.big > 0 && s.small < kSmall then
       [State(s.big - Min(s.big, kSmall - s.small), s.small + Min(s.big, kSmall - s.small))] else []) +
    (if s.big < kBig && s.small > 0 then
       [State(s.big + Min(s.small, kBig - s.big), s.small - Min(s.small, kBig - s.big))] else [])
  }

  /** The states one move away, in the order in which the search tries them. */
  function Successors(s: State, kBig: int, kSmall: int): (ts: seq<State>) {
    Emptied(s) + Filled(s, kBig, kSmall) + Poured(s, kBig, kSmall)
  }

  /** What may be done with jugs that have no marks: empty one, fill one, or pour until the one is empty or the other full. */
  ghost predicate Move(s: State, t: State, kBig: int, kSmall: int) {
    || t == State(0, s.small) || t == State(s.big, 0) || t == State(kBig, s.small) || t == State(s.big, kSmall)
    || (&& t.big + t.small == s.big + s.small && 0 <= t.big <= kBig && 0 <= t.small <= kSmall
        && (t.big < s.big ==> t.big == 0 || t.small == kSmall)
        && (t.small < s.small ==> t.small == 0 || t.big == kBig))
  }

  ghost predicate Holds(s: State, kBig: int, kSmall: int) {
    0 <= s.big <= kBig && 0 <= s.small <= kSmall
  }

  /** The successors are exactly the moves that change something. */
  lemma SuccessorsAreMoves(s: State, t: State, kBig: int, kSmall: int)
    requires Holds(s, kBig, kSmall)
    ensures t in Successors(s, kBig, kSmall) <==> t != s && Move(s, t, kBig, kSmall)
  {
    var ts := Successors(s, kBig, kSmall);
    if t != s && Move(s, t, kBig, kSmall) {
      assert forall u :: u in ts <==>
        || (s.big > 0 && u == State(0, s.small)) || (s.small > 0 && u == State(s.big, 0))
        || (s.big < kBig && u == State(kBig, s.small)) || (s.small < kSmall && u == State(s.big, kSmall))
        || (s.big > 0 && s.small < kSmall && u == State(s.big - Min(s.big, kSmall - s.small), s.small + Min(s.big, kSmall - s.small)))
        || (s.big < kBig && s.small > 0 && u == State(s.big + Min(s.small, kBig - s.big), s.small - Min(s.small, kBig - s.big)));
    }
  }

  /** A sequence of moves that starts with both jugs empty. */
  ghost predicate Path(p: seq<State>, kBig: int, kSmall: int) {
    p != [] && p[0] == State(0, 0) && forall i :: 0 <= i < |p| - 1 ==> p[i + 1] in Successors(p[i], kBig, kSmall)
  }

  ghost predicate Reachable(t: State, kBig: int, kSmall: int) {
    exists p :: Path(p, kBig, kSmall) && p[|p| - 1] == t
  }

  /** A jug of negative size is never filled. */
  ghost function Box(kBig: int, kSmall: int): (b: set<State>) {
    set b, s | 0 <= b <= (if kBig < 0 then 0 else kBig) && 0 <= s <= (if kSmall < 0 then 0 else kSmall) :: State(b, s)
  }

  lemma StaysInBox(s: State, t: State, kBig: int, kSmall: int)
    requires s in Box(kBig, kSmall) && t in Successors(s, kBig, kSmall)
    ensures t in Box(kBig, kSmall) && t != s
  {
  }

  // ---------------------------------------------------------------- the search

  /** The list of steps with their depths: parents come first and depths never fall. */
  ghost predicate Tree(steps: seq<Step>, depth: seq<nat>, curr: nat, kBig: int, kSmall: int) {
    && |steps| == |depth| > 0 && steps[0] == Step(START, -1) && depth[0] == 0
    && (forall i :: 0 < i < |steps| ==> Child(steps, depth, i, curr, kBig, kSmall))
    && (forall i, j :: 0 <= i <= j < |steps| ==> depth[i] <= depth[j])
    && (curr < |steps| ==> forall i :: 0 <= i < |steps| ==> depth[i] <= depth[curr] + 1)
  }

  ghost predicate Child(steps: seq<Step>, depth: seq<nat>, i: nat, curr: nat, kBig: int, kSmall: int)
    requires i < |steps| == |depth|
  {
    && 0 <= steps[i].parent < i && steps[i].parent <= curr
    && steps[i].st in Successors(steps[steps[i].parent].st, kBig, kSmall)
    && depth[i] == depth[steps[i].parent] + 1
  }

  /** t has been listed no deeper than d. */
  ghost predicate Listed(steps: seq<Step>, depth: seq<nat>, t: State, d: int)
    requires |steps| == |depth|
  {
    exists k :: 0 <= k < |steps| && steps[k].st == t && depth[k] <= d
  }

  /** Every state before curr is seen, is not the target, and has all its successors listed one deeper at most. */
  ghost predicate Explored(steps: seq<Step>, depth: seq<nat>, seen: set<State>, curr: nat, target: State, kBig: int, kSmall: int)
    requires |steps| == |depth| >= curr
  {
    && (forall t :: t in seen <==> exists j :: 0 <= j < curr && steps[j].st == t)
    && (forall j :: 0 <= j < curr ==> steps[j].st != target)
    && (forall j, t :: 0 <= j < curr && t in Successors(steps[j].st, kBig, kSmall) ==> Listed(steps, depth, t, depth[j] + 1))
  }

  /** The six moves as the loop body tries them. */
  method Expand(st: State, kBig: int, kSmall: int) returns (nexts: seq<State>)
    ensures nexts == Successors(st, kBig, kSmall)
  {
    var big, small := st.big, st.small;
    nexts := [];
    if big > 0 {
      nexts := nexts + [State(0, small)];
    }
    if small > 0 {
      nexts := nexts + [State(big, 0)];
    }
    assert nexts == Emptied(st);
    var more: seq<State> := [];
    if big < kBig {
      more := more + [State(kBig, small)];
    }
    if small < kSmall {
      more := more + [State(big, kSmall)];
    }
    assert more == Filled(st, kBig, kSmall);
    nexts := nexts + more;
    var pours := Pour(st, kBig, kSmall);
    nexts := nexts + pours;
  }

  method Pour(st: State, kBig: int, kSmall: int) returns (nexts: seq<State>)
    ensures nexts == Poured(st, kBig, kSmall)
    ensures forall i :: 0 <= i < |nexts| ==> nexts[i].big + nexts[i].small == st.big + st.small
  {
    var big, small := st.big, st.small;
    nexts := [];
    if big > 0 && small < kSmall {
      var smallSpace := kSmall - small;
      var next := if big > smallSpace then State(big - smallSpace, small + smallSpace) else State(0, small + big);
      nexts := nexts + [next];
    }
    if big < kBig && small > 0 {
      var bigSpace := kBig - big;
      var next := if small > bigSpace then State(kBig, small - bigSpace) else State(small + big, 0);
      nexts := nexts + [next];
    }
  }

  /** No move leads back to where it starts. */
  lemma NoSelf(st: State, kBig: int, kSmall: int)
    requires 0 <= st.big && 0 <= st.small
    ensures st !in Successors(st, kBig, kSmall)
  {
  }

  lemma PushKeepsTree(steps: seq<Step>, depth: seq<nat>, curr: nat, t: State, kBig: int, kSmall: int)
    requires Tree(steps, depth, curr, kBig, kSmall) && curr < |steps| && t in Successors(steps[curr].st, kBig, kSmall)
    ensures Tree(steps + [Step(t, curr)], depth + [depth[curr] + 1], curr, kBig, kSmall)
  {
    hide Successors;
    var steps', depth' := steps + [Step(t, curr)], depth + [depth[curr] + 1];
    forall i | 0 < i < |steps'|
      ensures Child(steps', depth', i, curr, kBig, kSmall)
    {
      assert i < |steps| ==> Child(steps, depth, i, curr, kBig, kSmall);
    }
  }

  /** Lists the successors of curr that have not been seen. */
  method PushNew(steps: seq<Step>, ghost depth: seq<nat>, seen: set<State>, curr: nat, nexts: seq<State>, kBig: int, kSmall: int)
    returns (steps': seq<Step>, ghost depth': seq<nat>)
    requires Tree(steps, depth, curr, kBig, kSmall) && curr < |steps| == |depth| && nexts == Successors(steps[curr].st, kBig, kSmall)
    ensures steps <= steps' && depth <= depth' && |steps'| == |depth'| && Tree(steps', depth', curr, kBig, kSmall)
    ensures forall i :: 0 <= i < |nexts| ==> nexts[i] in seen || Listed(steps', depth', nexts[i], depth[curr] + 1)
    ensures forall k :: |steps| <= k < |steps'| ==> steps'[k].st in nexts
  {
    hide Successors, Tree, Listed;
    steps', depth' := steps, depth;
    for n := 0 to |nexts|
      invariant steps <= steps' && depth <= depth' && Tree(steps', depth', curr, kBig, kSmall) && |steps'| == |depth'|
      invariant forall i :: 0 <= i < n ==> nexts[i] in seen || Listed(steps', depth', nexts[i], depth[curr] + 1)
      invariant forall k :: |steps| <= k < |steps'| ==> steps'[k].st in nexts
    {
      if nexts[n] !in seen {
        PushKeepsTree(steps', depth', curr, nexts[n], kBig, kSmall);
        ListedNow(steps', depth', curr, nexts, n, nexts[n], depth[curr] + 1);
        steps', depth' := steps' + [Step(nexts[n], curr)], depth' + [depth'[curr] + 1];
      }
    }
  }

  lemma ListedNow(steps: seq<Step>, depth: seq<nat>, curr: nat, nexts: seq<State>, n: nat, t: State, d: nat)
    requires |steps| == |depth| > curr && n <= |nexts| && d == depth[curr] + 1
    ensures var steps', depth' := steps + [Step(t, curr)], depth + [d];
      && Listed(steps', depth', t, d)
      && forall u :: Listed(steps, depth, u, d) ==> Listed(steps', depth', u, d)
  {
    var steps', depth' := steps + [Step(t, curr)], depth + [d];
    assert steps'[|steps|].st == t;
    forall u | Listed(steps, depth, u, d)
      ensures Listed(steps', depth', u, d)
    {
      ListedGrows(steps, depth, steps', depth', u, d);
    }
  }

  lemma ListedGrows(steps: seq<Step>, depth: seq<nat>, steps': seq<Step>, depth': seq<nat>, t: State, d: int)
    requires |steps| == |depth| && |steps'| == |depth'| && steps <= steps' && depth <= depth' && Listed(steps, depth, t, d)
    ensures Listed(steps', depth', t, d)
  {
    var k :| 0 <= k < |steps| && steps[k].st == t && depth[k] <= d;
    assert steps'[k].st == t;
  }

  lemma TreeMovesOn(steps: seq<Step>, depth: seq<nat>, curr: nat, kBig: int, kSmall: int)
    requires Tree(steps, depth, curr, kBig, kSmall) && curr < |steps|
    ensures Tree(steps, depth, curr + 1, kBig, kSmall)
  {
    hide Successors;
    var next := curr + 1;
    forall i | 0 < i < |steps|
      ensures Child(steps, depth, i, next, kBig, kSmall)
    {
      assert Child(steps, depth, i, curr, kBig, kSmall);
    }
    if curr + 1 < |steps| {
      assert depth[curr] <= depth[curr + 1];
    }
  }

  /** A state met again has its successors listed already. */
  lemma MetAgain(steps: seq<Step>, depth: seq<nat>, seen: set<State>, curr: nat, target: State, kBig: int, kSmall: int)
    requires Tree(steps, depth, curr, kBig, kSmall) && curr < |steps|
    requires Explored(steps, depth, seen, curr, target, kBig, kSmall)
    requires steps[curr].st in seen && steps[curr].st != target
    ensures Explored(steps, depth, seen, curr + 1, target, kBig, kSmall)
  {
    hide Successors;
    var m :| 0 <= m < curr && steps[m].st == steps[curr].st;
    forall t | t in Successors(steps[curr].st, kBig, kSmall)
      ensures Listed(steps, depth, t, depth[curr] + 1)
    {
      assert Listed(steps, depth, t, depth[m] + 1);
      assert depth[m] <= depth[curr];
      var k :| 0 <= k < |steps| && steps[k].st == t && depth[k] <= depth[m] + 1;
    }
  }

  /** A new state has its successors seen or listed now. */
  lemma MetFirst(steps: seq<Step>, depth: seq<nat>, steps': seq<Step>, depth': seq<nat>,
                 seen: set<State>, curr: nat, target: State, kBig: int, kSmall: int)
    requires Tree(steps, depth, curr, kBig, kSmall) && curr < |steps| == |depth|
    requires Explored(steps, depth, seen, curr, target, kBig, kSmall) && steps[curr].st != target
    requires steps <= steps' && depth <= depth' && |steps'| == |depth'|
    requires forall t :: t in Successors(steps[curr].st, kBig, kSmall) ==> t in seen + {steps[curr].st} || Listed(steps', depth', t, depth[curr] + 1)
    ensures Explored(steps', depth', seen + {steps[curr].st}, curr + 1, target, kBig, kSmall)
  {
    hide Successors, Tree, Listed;
    forall j, t | 0 <= j < curr + 1 && t in Successors(steps'[j].st, kBig, kSmall)
      ensures Listed(steps', depth', t, depth'[j] + 1)
    {
      if j < curr {
        assert steps'[j] == steps[j];
        assert Listed(steps, depth, t, depth[j] + 1);
        ListedGrows(steps, depth, steps', depth', t, depth[j] + 1);
      } else if t in seen + {steps[curr].st} {
        var m :| 0 <= m <= curr && steps[m].st == t;
        EarlierIsListed(steps, depth, steps', depth', m, curr, kBig, kSmall);
      }
    }
    forall t
      ensures t in seen + {steps[curr].st} <==> exists j :: 0 <= j < curr + 1 && steps'[j].st == t
    {
      if t in seen {
        var j :| 0 <= j < curr && steps[j].st == t;
        assert steps'[j].st == t;
      } else if t == steps[curr].st {
        assert steps'[curr].st == t;
      }
    }
  }

  lemma EarlierIsListed(steps: seq<Step>, depth: seq<nat>, steps': seq<Step>, depth': seq<nat>, m: nat, curr: nat, kBig: int, kSmall: int)
    requires Tree(steps, depth, curr, kBig, kSmall) && m <= curr < |steps| == |depth|
    requires steps <= steps' && depth <= depth' && |steps'| == |depth'|
    ensures Listed(steps', depth', steps[m].st, depth[curr] + 1)
  {
    hide Successors;
    assert steps'[m].st == steps[m].st && depth[m] <= depth[curr];
  }

  // ---------------------------------------------------------------- what the search has found out

  /** Every path has been followed into the list, unless it leaves it at a state not yet processed. */
  lemma {:induction false} Followed(steps: seq<Step>, depth: seq<nat>, seen: set<State>, curr: nat, target: State,
                                    p: seq<State>, i: nat, kBig: int, kSmall: int)
    requires Tree(steps, depth, curr, kBig, kSmall) && curr <= |steps|
    requires Explored(steps, depth, seen, curr, target, kBig, kSmall) && Path(p, kBig, kSmall) && i < |p|
    ensures Listed(steps, depth, p[i], i) || (curr < |steps| && depth[curr] <= i)
  {
    hide Successors;
    if i == 0 {
      assert steps[0].st == p[0];
    } else {
      Followed(steps, depth, seen, curr, target, p, i - 1, kBig, kSmall);
      if Listed(steps, depth, p[i - 1], i - 1) {
        var k :| 0 <= k < |steps| && steps[k].st == p[i - 1] && depth[k] <= i - 1;
        if k < curr {
          assert p[i - 1 + 1] in Successors(p[i - 1], kBig, kSmall);
          assert Listed(steps, depth, p[i], depth[k] + 1);
          var l :| 0 <= l < |steps| && steps[l].st == p[i] && depth[l] <= depth[k] + 1;
        } else {
          assert depth[curr] <= depth[k];
        }
      }
    }
  }

  /** At the target, no path is shorter than the depth. */
  lemma Shortest(steps: seq<Step>, depth: seq<nat>, seen: set<State>, curr: nat, target: State, p: seq<State>, kBig: int, kSmall: int)
    requires Tree(steps, depth, curr, kBig, kSmall) && curr < |steps| && steps[curr].st == target
    requires Explored(steps, depth, seen, curr, target, kBig, kSmall) && Path(p, kBig, kSmall) && p[|p| - 1] == target
    ensures depth[curr] <= |p| - 1
  {
    hide Successors;
    Followed(steps, depth, seen, curr, target, p, |p| - 1, kBig, kSmall);
    if Listed(steps, depth, target, |p| - 1) {
      var k :| 0 <= k < |steps| && steps[k].st == target && depth[k] <= |p| - 1;
      assert depth[curr] <= depth[k];
    }
  }

  /** With every step processed, the target cannot be reached. */
  lemma Exhausted(steps: seq<Step>, depth: seq<nat>, seen: set<State>, curr: nat, target: State, p: seq<State>, kBig: int, kSmall: int)
    requires Tree(steps, depth, curr, kBig, kSmall) && curr == |steps|
    requires Explored(steps, depth, seen, curr, target, kBig, kSmall) && Path(p, kBig, kSmall)
    ensures p[|p| - 1] != target
  {
    hide Successors;
    Followed(steps, depth, seen, curr, target, p, |p| - 1, kBig, kSmall);
  }

  /** print: the states from the end of a parent chain back to its start. */
  method Print(steps: seq<Step>, ghost depth: seq<nat>, curr: nat, kBig: int, kSmall: int) returns (out: seq<State>)
    requires Tree(steps, depth, |steps|, kBig, kSmall) && curr < |steps|
    ensures |out| == depth[curr] + 1 && out[0] == steps[curr].st && out[|out| - 1] == START
    ensures forall i :: 0 <= i < |out| - 1 ==> out[i] in Successors(out[i + 1], kBig, kSmall)
  {
    hide Successors;
    out := [];
    var c := curr as int;
    while c >= 0
      invariant -1 <= c < |steps|
      invariant |out| == depth[curr] - (if c >= 0 then depth[c] else -1)
      invariant forall i :: 0 <= i < |out| - 1 ==> out[i] in Successors(out[i + 1], kBig, kSmall)
      invariant c >= 0 && out != [] ==> out[|out| - 1] in Successors(steps[c].st, kBig, kSmall)
      invariant if out == [] then c == curr else out[0] == steps[curr].st
      invariant c == -1 ==> out != [] && out[|out| - 1] == START
      decreases c
    {
      assert c > 0 ==> Child(steps, depth, c, |steps|, kBig, kSmall);
      out := out + [steps[c].st];
      c := steps[c].parent;
    }
  }

  /** The search finds the target exactly if it can be reached, along a shortest sequence of moves. */
  method Search(kBig: int, kSmall: int, amount: int) returns (found: bool, out: seq<State>)
    ensures found <==> Reachable(State(amount, 0), kBig, kSmall)
    ensures found ==> out != [] && out[0] == State(amount, 0) && out[|out| - 1] == State(0, 0)
    ensures found ==> forall i :: 0 <= i < |out| - 1 ==> out[i] in Successors(out[i + 1], kBig, kSmall)
    ensures found ==> forall p :: Path(p, kBig, kSmall) && p[|p| - 1] == State(amount, 0) ==> |out| <= |p|
  {
    hide Successors, Tree, Explored, Box;
    var target := State(amount, 0);
    var steps := [Step(START, -1)];
    ghost var depth: seq<nat> := [0];
    var seen: set<State> := {};
    var curr := 0;
    Beginning(target, kBig, kSmall);
    while steps[curr].st != target
      invariant 0 <= curr < |steps| == |depth|
      invariant Tree(steps, depth, curr, kBig, kSmall) && Explored(steps, depth, seen, curr, target, kBig, kSmall)
      invariant forall i :: 0 <= i < |steps| ==> steps[i].st in Box(kBig, kSmall)
      invariant seen <= Box(kBig, kSmall)
      decreases |Box(kBig, kSmall) - seen|, |steps| - curr
    {
      ghost var st := steps[curr].st;
      if steps[curr].st !in seen {
        var nexts := Expand(steps[curr].st, kBig, kSmall);
        ghost var steps0, depth0, seen0 := steps, depth, seen;
        seen := seen + {steps[curr].st};
        Fewer(Box(kBig, kSmall), seen0, st);
        steps, depth := PushNew(steps, depth, seen, curr, nexts, kBig, kSmall);
        MetFirst(steps0, depth0, steps, depth, seen0, curr, target, kBig, kSmall);
        forall i | 0 <= i < |steps|
          ensures steps[i].st in Box(kBig, kSmall)
        {
          if i < |steps0| {
            assert steps[i] == steps0[i];
          } else {
            StaysInBox(st, steps[i].st, kBig, kSmall);
          }
        }
      } else {
        MetAgain(steps, depth, seen, curr, target, kBig, kSmall);
      }
      TreeMovesOn(steps, depth, curr, kBig, kSmall);
      curr := curr + 1;
      if curr >= |steps| {
        forall p | Path(p, kBig, kSmall)
          ensures p[|p| - 1] != target
        {
          Exhausted(steps, depth, seen, curr, target, p, kBig, kSmall);
        }
        return false, [];
      }
    }
    found := true;
    TreeEnd(steps, depth, curr, kBig, kSmall);
    out := Print(steps, depth, curr, kBig, kSmall);
    Backwards(out, kBig, kSmall);
    forall p | Path(p, kBig, kSmall) && p[|p| - 1] == target
      ensures |out| <= |p|
    {
      Shortest(steps, depth, seen, curr, target, p, kBig, kSmall);
    }
  }

  lemma Beginning(target: State, kBig: int, kSmall: int)
    ensures Tree([Step(START, -1)], [0], 0, kBig, kSmall)
    ensures Explored([Step(START, -1)], [0], {}, 0, target, kBig, kSmall)
    ensures START in Box(kBig, kSmall)
  {
  }

  lemma Fewer(box: set<State>, seen: set<State>, s: State)
    requires s in box && s !in seen
    ensures |box - (seen + {s})| < |box - seen|
  {
    assert box - (seen + {s}) == (box - seen) - {s};
  }

  lemma TreeEnd(steps: seq<Step>, depth: seq<nat>, curr: nat, kBig: int, kSmall: int)
    requires Tree(steps, depth, curr, kBig, kSmall) && curr < |steps|
    ensures Tree(steps, depth, |steps|, kBig, kSmall)
  {
    hide Successors;
    forall i | 0 < i < |steps|
      ensures Child(steps, depth, i, |steps|, kBig, kSmall)
    {
      assert Child(steps, depth, i, curr, kBig, kSmall);
    }
  }

  /** The printed states, read from the end, are a path. */
  lemma Backwards(out: seq<State>, kBig: int, kSmall: int)
    requires out != [] && out[|out| - 1] == START
    requires forall i :: 0 <= i < |out| - 1 ==> out[i] in Successors(out[i + 1], kBig, kSmall)
    ensures Reachable(out[0], kBig, kSmall)
  {
    hide Successors;
    var n := |out|;
    var p := seq(n, i requires 0 <= i < n => out[n - 1 - i]);
    forall i | 0 <= i < |p| - 1
      ensures p[i + 1] in Successors(p[i], kBig, kSmall)
    {
      var k := n - 2 - i;
      assert out[k] in Successors(out[k + 1], kBig, kSmall);
    }
    assert Path(p, kBig, kSmall) && p[|p| - 1] == out[0];
  }
}
