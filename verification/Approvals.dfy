/**
 Matching destructive actions with recorded approvals, greedily and in action order.

 How a command's key is cut, what makes it hazardous and which blast radius names a notional are
 parameters. Field values are texts, an absent or empty one being "".
 */
module Approvals {
  import opened Sets
  import opened Wrappers

  datatype Approval = NotAnObject | Approval(operation: string, approvedBy: string, at: string, blastRadius: string)

  datatype Action = Action(index: int, cmd: string, categories: seq<string>) {
    predicate Trade() {
      "trade" in categories
    }
  }

  datatype Rules = Rules(key: string -> string, hazardous: string -> bool, namesNotional: string -> bool)

  datatype Problem =
    | NoApprovals
    | NotAnApproval(position: nat)
    | Incomplete(position: nat, missing: seq<string>)
    | Hazards(index: int)
    | NoNamedApproval(index: int, trade: bool)

  function Missing(ap: Approval): seq<string>
    requires ap.Approval?
  {
    (if ap.operation == "" then ["operation"] else [])
    + (if ap.approvedBy == "" then ["approved_by"] else [])
    + (if ap.at == "" then ["at"] else [])
    + (if ap.blastRadius == "" then ["blast_radius"] else [])
  }

  predicate Complete(ap: Approval) {
    ap.Approval? && Missing(ap) == []
  }

  predicate Satisfies(r: Rules, ap: Approval, a: Action) {
    && Complete(ap)
    && !r.hazardous(a.cmd)
    && r.key(a.cmd) != "" && r.key(ap.operation) == r.key(a.cmd)
    && (a.Trade() ==> r.namesNotional(ap.blastRadius))
  }

  // ---------------------------------------------------------------- the greedy choice

  /** The first approval from a position on that is free and satisfies the action. */
  function Pick(r: Rules, approvals: seq<Approval>, a: Action, used: set<nat>, from: nat): Option<nat>
    decreases |approvals| - from
  {
    if from >= |approvals| then None
    else if from !in used && Satisfies(r, approvals[from], a) then Some(from)
    else Pick(r, approvals, a, used, from + 1)
  }

  function Used(choices: seq<Option<nat>>): set<nat> {
    set i | 0 <= i < |choices| && choices[i].Some? :: choices[i].value
  }

  function Choices(r: Rules, actions: seq<Action>, approvals: seq<Approval>): (c: seq<Option<nat>>)
    ensures |c| == |actions|
  {
    if actions == [] then []
    else
      var before := Choices(r, actions[..|actions| - 1], approvals);
      before + [Pick(r, approvals, actions[|actions| - 1], Used(before), 0)]
  }

  function RecordProblems(approvals: seq<Approval>): seq<Problem> {
    if approvals == [] then []
    else
      var n: nat := |approvals| - 1;
      RecordProblems(approvals[..n])
      + (if approvals[n].NotAnObject? then [NotAnApproval(n)]
         else if Missing(approvals[n]) != [] then [Incomplete(n, Missing(approvals[n]))]
         else [])
  }

  function MatchProblems(r: Rules, actions: seq<Action>, choices: seq<Option<nat>>): seq<Problem>
    requires |actions| == |choices|
  {
    if actions == [] then []
    else
      var n := |actions| - 1;
      MatchProblems(r, actions[..n], choices[..n])
      + (if choices[n].Some? then []
         else if r.hazardous(actions[n].cmd) then [Hazards(actions[n].index)]
         else [NoNamedApproval(actions[n].index, actions[n].Trade())])
  }

  method ApprovalProblems(r: Rules, actions: seq<Action>, approvals: seq<Approval>) returns (problems: seq<Problem>)
    ensures problems == Report(r, actions, approvals)
  {
    if approvals == [] {
      return [NoApprovals];
    }
    problems := [];
    for i := 0 to |approvals|
      invariant problems == RecordProblems(approvals[..i])
    {
      assert approvals[..i + 1][..i] == approvals[..i];
      if approvals[i].NotAnObject? {
        problems := problems + [NotAnApproval(i)];
      } else {
        var missing := Missing(approvals[i]);
        if missing != [] {
          problems := problems + [Incomplete(i, missing)];
        }
      }
    }
    assert approvals[..|approvals|] == approvals;
    var used: set<nat> := {};
    ghost var choices: seq<Option<nat>> := [];
    for k := 0 to |actions|
      invariant choices == Choices(r, actions[..k], approvals) && used == Used(choices)
      invariant problems == RecordProblems(approvals) + MatchProblems(r, actions[..k], choices)
    {
      var action := actions[k];
      var i, idx := 0, None;
      while i < |approvals| && idx.None?
        invariant i <= |approvals|
        invariant Pick(r, approvals, action, used, 0) == if idx.Some? then idx else Pick(r, approvals, action, used, i)
      {
        if i !in used && Satisfies(r, approvals[i], action) {
          idx := Some(i);
        }
        i := i + 1;
      }
      assert actions[..k + 1][..k] == actions[..k];
      assert (choices + [idx])[..k] == choices;
      UsedSnoc(choices, idx);
      choices := choices + [idx];
      if idx.None? {
        if r.hazardous(action.cmd) {
          problems := problems + [Hazards(action.index)];
        } else {
          problems := problems + [NoNamedApproval(action.index, action.Trade())];
        }
      } else {
        used := used + {idx.value};
      }
    }
    assert actions[..|actions|] == actions;
  }

  lemma UsedSnoc(choices: seq<Option<nat>>, c: Option<nat>)
    ensures Used(choices + [c]) == Used(choices) + (if c.Some? then {c.value} else {})
  {
    var all := choices + [c];
    assert forall i | 0 <= i < |choices| :: all[i] == choices[i];
    if c.Some? {
      assert all[|choices|].value in Used(all);
    }
    forall v | v in Used(choices)
      ensures v in Used(all)
    {
      var i :| 0 <= i < |choices| && choices[i] == Some(v);
      assert all[i] == Some(v);
    }
  }

  // ---------------------------------------------------------------- what the choices mean

  predicate AllMatched(choices: seq<Option<nat>>) {
    forall i | 0 <= i < |choices| :: choices[i].Some?
  }

  /** Every action has its own satisfying approval. */
  predicate Assigns(r: Rules, actions: seq<Action>, approvals: seq<Approval>, f: seq<nat>) {
    && |f| == |actions|
    && (forall i | 0 <= i < |f| :: f[i] < |approvals| && Satisfies(r, approvals[f[i]], actions[i]))
    && (forall i, j | 0 <= i < j < |f| :: f[i] != f[j])
  }

  lemma {:induction false} PickIsFirst(r: Rules, approvals: seq<Approval>, a: Action, used: set<nat>, from: nat)
    ensures match Pick(r, approvals, a, used, from)
            case Some(i) => from <= i < |approvals| && i !in used && Satisfies(r, approvals[i], a)
                            && forall k | from <= k < i :: k in used || !Satisfies(r, approvals[k], a)
            case None => forall k | from <= k < |approvals| :: k in used || !Satisfies(r, approvals[k], a)
    decreases |approvals| - from
  {
    if from < |approvals| && !(from !in used && Satisfies(r, approvals[from], a)) {
      PickIsFirst(r, approvals, a, used, from + 1);
    }
  }

  lemma {:induction false} ChoiceAt(r: Rules, actions: seq<Action>, approvals: seq<Approval>, i: nat)
    requires i < |actions|
    ensures var c := Choices(r, actions, approvals);
            c[..i] == Choices(r, actions[..i], approvals) && c[i] == Pick(r, approvals, actions[i], Used(c[..i]), 0)
    decreases |actions|
  {
    var n := |actions| - 1;
    if i < n {
      ChoiceAt(r, actions[..n], approvals, i);
      assert actions[..n][..i] == actions[..i];
    }
  }

  /** Soundness: the choices made are satisfying and never shared. */
  lemma ChoicesAreOwn(r: Rules, actions: seq<Action>, approvals: seq<Approval>, i: nat)
    requires i < |actions| && Choices(r, actions, approvals)[i].Some?
    ensures var c := Choices(r, actions, approvals);
            && c[i].value < |approvals| && Satisfies(r, approvals[c[i].value], actions[i])
            && forall j | 0 <= j < i :: c[j] != c[i]
  {
    var c := Choices(r, actions, approvals);
    ChoiceAt(r, actions, approvals, i);
    PickIsFirst(r, approvals, actions[i], Used(c[..i]), 0);
    UsedHasEach(c[..i]);
    assert forall j | 0 <= j < i :: c[..i][j] == c[j];
  }

  lemma UsedHasEach(choices: seq<Option<nat>>)
    ensures forall j | 0 <= j < |choices| && choices[j].Some? :: choices[j].value in Used(choices)
    ensures forall v | v in Used(choices) :: Some(v) in choices
  {
  }

  function Values(choices: seq<Option<nat>>): seq<nat> {
    seq(|choices|, i requires 0 <= i < |choices| => choices[i].GetOr(0))
  }

  lemma MatchedMeansAssigned(r: Rules, actions: seq<Action>, approvals: seq<Approval>)
    requires AllMatched(Choices(r, actions, approvals))
    ensures Assigns(r, actions, approvals, Values(Choices(r, actions, approvals)))
  {
    forall i | 0 <= i < |actions|
      ensures var c := Choices(r, actions, approvals);
              && c[i].value < |approvals| && Satisfies(r, approvals[c[i].value], actions[i])
              && forall j | 0 <= j < i :: c[j] != c[i]
    {
      ChoicesAreOwn(r, actions, approvals, i);
    }
  }

  // ---------------------------------------------------------------- counting

  function Image(s: set<nat>, f: seq<nat>): set<nat>
    requires forall i | i in s :: i < |f|
  {
    set i | i in s :: f[i]
  }

  lemma {:induction false} ImageSize(s: set<nat>, f: seq<nat>)
    requires forall i | i in s :: i < |f|
    ensures |Image(s, f)| <= |s|
    ensures (forall i, j | i in s && j in s && i != j :: f[i] != f[j]) ==> |Image(s, f)| == |s|
    decreases |s|
  {
    if s != {} {
      var x :| x in s;
      ImageSize(s - {x}, f);
      assert Image(s, f) == Image(s - {x}, f) + {f[x]};
      if forall i, j | i in s && j in s && i != j :: f[i] != f[j] {
        assert f[x] !in Image(s - {x}, f);
      }
    }
  }

  /** The approvals that satisfy an action. */
  function Eligible(r: Rules, approvals: seq<Approval>, a: Action): set<nat> {
    set i: nat | i < |approvals| && Satisfies(r, approvals[i], a)
  }

  /** An earlier action that shares an approval with a later one can be content with what the later needs. */
  predicate Nested(r: Rules, actions: seq<Action>, approvals: seq<Approval>) {
    forall i, j | 0 <= i < j < |actions| ::
      || Eligible(r, approvals, actions[i]) !! Eligible(r, approvals, actions[j])
      || Eligible(r, approvals, actions[i]) <= Eligible(r, approvals, actions[j])
  }

  lemma OneMore(takers: set<nat>, f: seq<nat>, j: nat)
    requires j !in takers && j < |f| && forall i | i in takers :: i < |f|
    requires forall i, k | 0 <= i < k < |f| :: f[i] != f[k]
    ensures |Image(takers + {j}, f)| == |takers| + 1
  {
    ImageSize(takers + {j}, f);
  }

  /** Approvals that serve the takers and j, each its own, are not all among what the takers took. */
  lemma NotAllTaken(s: set<nat>, takers: set<nat>, taken: seq<nat>, f: seq<nat>, j: nat)
    requires j !in takers && j < |f| && forall i | i in takers :: i < |taken| && i < |f|
    requires forall i | i in takers + {j} :: f[i] in s
    requires forall i, k | 0 <= i < k < |f| :: f[i] != f[k]
    ensures !(s <= Image(takers, taken))
  {
    OneMore(takers, f, j);
    SubsetSize(Image(takers + {j}, f), s);
    ImageSize(takers, taken);
    if s <= Image(takers, taken) {
      SubsetSize(s, Image(takers, taken));
    }
  }

  /** The actions before j that took one of these approvals. */
  function Takers(choices: seq<Option<nat>>, s: set<nat>, j: nat): set<nat>
    requires j <= |choices|
  {
    set i: nat | i < j && choices[i].Some? && choices[i].value in s
  }

  lemma UnmatchedMeansTaken(r: Rules, actions: seq<Action>, approvals: seq<Approval>, j: nat)
    requires j < |actions|
    ensures var c, s := Choices(r, actions, approvals), Eligible(r, approvals, actions[j]);
            c[j].None? ==> s <= Image(Takers(c, s, j), Values(c))
  {
    var c, s := Choices(r, actions, approvals), Eligible(r, approvals, actions[j]);
    ChoiceAt(r, actions, approvals, j);
    PickIsFirst(r, approvals, actions[j], Used(c[..j]), 0);
    forall v | v in s && v in Used(c[..j])
      ensures v in Image(Takers(c, s, j), Values(c))
    {
      var i :| 0 <= i < j && c[..j][i] == Some(v);
      assert c[i] == Some(v) && i in Takers(c, s, j) && Values(c)[i] == v;
    }
  }

  /** Under nesting, whoever took what action j needs must itself have its assigned approval there. */
  lemma TakersBelong(r: Rules, actions: seq<Action>, approvals: seq<Approval>, f: seq<nat>, i: nat, j: nat)
    requires Nested(r, actions, approvals) && Assigns(r, actions, approvals, f) && i < j < |actions|
    requires var c := Choices(r, actions, approvals); c[i].Some? && c[i].value in Eligible(r, approvals, actions[j])
    ensures f[i] in Eligible(r, approvals, actions[j])
  {
    ChoicesAreOwn(r, actions, approvals, i);
    assert Choices(r, actions, approvals)[i].value in Eligible(r, approvals, actions[i]);
    assert f[i] in Eligible(r, approvals, actions[i]);
  }

  lemma NestedMatches(r: Rules, actions: seq<Action>, approvals: seq<Approval>, f: seq<nat>, j: nat)
    requires Nested(r, actions, approvals) && Assigns(r, actions, approvals, f) && j < |actions|
    ensures Choices(r, actions, approvals)[j].Some?
  {
    var c, s := Choices(r, actions, approvals), Eligible(r, approvals, actions[j]);
    forall i | i in Takers(c, s, j)
      ensures f[i] in s
    {
      TakersBelong(r, actions, approvals, f, i, j);
    }
    UnmatchedMeansTaken(r, actions, approvals, j);
    NotAllTaken(s, Takers(c, s, j), Values(c), f, j);
  }

  /** Completeness under nesting: if any assignment exists, the greedy one matches every action. */
  lemma NestedIsExact(r: Rules, actions: seq<Action>, approvals: seq<Approval>, f: seq<nat>)
    requires Nested(r, actions, approvals) && Assigns(r, actions, approvals, f)
    ensures AllMatched(Choices(r, actions, approvals))
  {
    forall j: nat | j < |actions|
      ensures Choices(r, actions, approvals)[j].Some?
    {
      NestedMatches(r, actions, approvals, f, j);
    }
  }

  // ---------------------------------------------------------------- when greedy is exact

  /** Some approval can satisfy the action. */
  predicate Approvable(r: Rules, a: Action) {
    !r.hazardous(a.cmd) && r.key(a.cmd) != ""
  }

  /** A plain action that comes before a trade action of the same key may take its approval. */
  predicate PlainBeforeTrade(r: Rules, actions: seq<Action>, i: nat, j: nat) {
    i < j < |actions| && !actions[i].Trade() && actions[j].Trade() && r.key(actions[i].cmd) == r.key(actions[j].cmd)
  }

  lemma OrderedIsNested(r: Rules, actions: seq<Action>, approvals: seq<Approval>)
    requires forall i, j :: !PlainBeforeTrade(r, actions, i, j)
    ensures Nested(r, actions, approvals)
  {
    forall i, j | 0 <= i < j < |actions| && !(Eligible(r, approvals, actions[i]) !! Eligible(r, approvals, actions[j]))
      ensures Eligible(r, approvals, actions[i]) <= Eligible(r, approvals, actions[j])
    {
      assert !PlainBeforeTrade(r, actions, i, j);
    }
  }

  /** An approval written for one action: a notional for a trade, some other radius for the rest. */
  function Own(a: Action, notional: string, other: string): Approval {
    Approval(a.cmd, "chief", "now", if a.Trade() then notional else other)
  }

  function OwnFor(actions: seq<Action>, trade: bool, notional: string, other: string): seq<Approval> {
    if actions == [] then []
    else
      var last := actions[|actions| - 1];
      OwnFor(actions[..|actions| - 1], trade, notional, other)
      + (if last.Trade() == trade then [Own(last, notional, other)] else [])
  }

  /** One own approval per action, those of the trades first. */
  function TradesFirst(actions: seq<Action>, notional: string, other: string): seq<Approval> {
    OwnFor(actions, true, notional, other) + OwnFor(actions, false, notional, other)
  }

  /** Where an action's own approval stands in that list. */
  function Place(actions: seq<Action>, notional: string, other: string, i: nat): nat
    requires i < |actions|
  {
    if actions[i].Trade() then |OwnFor(actions[..i], true, notional, other)|
    else |OwnFor(actions, true, notional, other)| + |OwnFor(actions[..i], false, notional, other)|
  }

  lemma {:induction false} OwnForGrows(actions: seq<Action>, trade: bool, notional: string, other: string, i: nat)
    requires i <= |actions|
    ensures OwnFor(actions[..i], trade, notional, other) <= OwnFor(actions, trade, notional, other)
    decreases |actions|
  {
    if i == |actions| {
      assert actions[..i] == actions;
    } else {
      var n := |actions| - 1;
      assert actions[..n][..i] == actions[..i];
      OwnForGrows(actions[..n], trade, notional, other, i);
    }
  }

  lemma OwnIsAtPlace(actions: seq<Action>, notional: string, other: string, i: nat)
    requires i < |actions|
    ensures var k := Place(actions, notional, other, i); var all := TradesFirst(actions, notional, other);
            && k < |all| && all[k] == Own(actions[i], notional, other)
            && (k < |OwnFor(actions, true, notional, other)| <==> actions[i].Trade())
  {
    var trade := actions[i].Trade();
    assert actions[..i + 1][..i] == actions[..i];
    OwnForGrows(actions, trade, notional, other, i + 1);
    assert OwnFor(actions[..i + 1], trade, notional, other)
        == OwnFor(actions[..i], trade, notional, other) + [Own(actions[i], notional, other)];
  }

  lemma PlacesDiffer(actions: seq<Action>, notional: string, other: string, i: nat, j: nat)
    requires i < j < |actions|
    ensures Place(actions, notional, other, i) != Place(actions, notional, other, j)
  {
    OwnIsAtPlace(actions, notional, other, i);
    OwnIsAtPlace(actions, notional, other, j);
    var trade := actions[i].Trade();
    if actions[j].Trade() == trade {
      assert actions[..i + 1][..i] == actions[..i] && actions[..j][..i + 1] == actions[..i + 1];
      OwnForGrows(actions[..j], trade, notional, other, i + 1);
    }
  }

  lemma {:induction false} TradesCounted(actions: seq<Action>, notional: string, other: string)
    ensures |set i: nat | i < |actions| && actions[i].Trade()| == |OwnFor(actions, true, notional, other)|
    decreases |actions|
  {
    if actions != [] {
      var n := |actions| - 1;
      TradesCounted(actions[..n], notional, other);
      var before := set i: nat | i < n && actions[..n][i].Trade();
      var all := set i: nat | i < |actions| && actions[i].Trade();
      assert all == before + (if actions[n].Trade() then {n} else {});
    }
  }

  ghost predicate Solvable(r: Rules, actions: seq<Action>, approvals: seq<Approval>) {
    exists f :: Assigns(r, actions, approvals, f)
  }

  lemma OwnApprovalsSolve(r: Rules, actions: seq<Action>, notional: string, other: string)
    requires forall i | 0 <= i < |actions| :: Approvable(r, actions[i])
    requires notional != "" && other != "" && r.namesNotional(notional)
    requires r.key("") == ""
    ensures Solvable(r, actions, TradesFirst(actions, notional, other))
  {
    var f := seq(|actions|, i requires 0 <= i < |actions| => Place(actions, notional, other, i));
    forall i | 0 <= i < |actions|
      ensures f[i] < |TradesFirst(actions, notional, other)|
              && Satisfies(r, TradesFirst(actions, notional, other)[f[i]], actions[i])
    {
      OwnIsAtPlace(actions, notional, other, i);
    }
    forall i, j | 0 <= i < j < |actions|
      ensures f[i] != f[j]
    {
      PlacesDiffer(actions, notional, other, i, j);
    }
    assert Assigns(r, actions, TradesFirst(actions, notional, other), f);
  }

  /** With every action's own approval listed, trades first, a plain action ahead of a trade spoils the match. */
  lemma PlainBeforeTradeSpoils(r: Rules, actions: seq<Action>, notional: string, other: string, p: nat, t: nat)
    requires PlainBeforeTrade(r, actions, p, t)
    requires r.namesNotional(notional) && !r.namesNotional(other)
    ensures !AllMatched(Choices(r, actions, TradesFirst(actions, notional, other)))
  {
    hide Choices, Satisfies, OwnFor, TradesFirst, Pick;
    var approvals := TradesFirst(actions, notional, other);
    var c := Choices(r, actions, approvals);
    if AllMatched(c) {
      var count := |OwnFor(actions, true, notional, other)|;
      var g := Values(c);
      MatchedMeansAssigned(r, actions, approvals);
      forall i: nat | i < |actions| && actions[i].Trade()
        ensures g[i] < count
      {
        TradeTakesTradeApproval(r, actions, notional, other, g[i], actions[i]);
      }
      PlainTakesNoLater(r, actions, approvals, p, t);
      var trades := set i: nat | i < |actions| && actions[i].Trade();
      TradesCounted(actions, notional, other);
      ImageSize(trades + {p}, g);
      Below(Image(trades + {p}, g), count);
    }
  }

  lemma TradeTakesTradeApproval(r: Rules, actions: seq<Action>, notional: string, other: string, k: nat, a: Action)
    requires !r.namesNotional(other) && a.Trade()
    requires k < |TradesFirst(actions, notional, other)| && Satisfies(r, TradesFirst(actions, notional, other)[k], a)
    ensures k < |OwnFor(actions, true, notional, other)|
  {
    PlainOwnsNameOther(actions, notional, other);
  }

  lemma {:induction false} PlainOwnsNameOther(actions: seq<Action>, notional: string, other: string)
    ensures forall ap | ap in OwnFor(actions, false, notional, other) :: ap.Approval? && ap.blastRadius == other
  {
    if actions != [] {
      PlainOwnsNameOther(actions[..|actions| - 1], notional, other);
    }
  }

  /** The plain action could have had the trade's approval, so it took that one or an earlier one. */
  lemma PlainTakesNoLater(r: Rules, actions: seq<Action>, approvals: seq<Approval>, p: nat, t: nat)
    requires PlainBeforeTrade(r, actions, p, t) && AllMatched(Choices(r, actions, approvals))
    ensures var c := Choices(r, actions, approvals); c[p].value <= c[t].value
  {
    var c := Choices(r, actions, approvals);
    ChoicesAreOwn(r, actions, approvals, t);
    ChoiceAt(r, actions, approvals, p);
    PickIsFirst(r, approvals, actions[p], Used(c[..p]), 0);
    UsedHasEach(c[..p]);
    assert forall i | 0 <= i < p :: c[..p][i] == c[i] && c[i] != c[t];
  }

  lemma {:induction false} Below(s: set<nat>, n: nat)
    requires forall x | x in s :: x < n
    ensures |s| <= n
  {
    if n == 0 {
      assert s == {};
    } else {
      Below(s - {n - 1}, n - 1);
      assert s <= (s - {n - 1}) + {n - 1};
      SubsetSize(s, (s - {n - 1}) + {n - 1});
    }
  }

  /** Whatever the approvals: whenever each action can have its own, the greedy loop finds it. */
  ghost predicate Exact(r: Rules, actions: seq<Action>) {
    forall approvals | Solvable(r, actions, approvals) :: AllMatched(Choices(r, actions, approvals))
  }

  lemma SolvableIsApprovable(r: Rules, actions: seq<Action>, approvals: seq<Approval>)
    ensures Solvable(r, actions, approvals) ==> forall i | 0 <= i < |actions| :: Approvable(r, actions[i])
  {
    if Solvable(r, actions, approvals) {
      var f :| Assigns(r, actions, approvals, f);
      forall i | 0 <= i < |actions|
        ensures Approvable(r, actions[i])
      {
        assert Satisfies(r, approvals[f[i]], actions[i]);
      }
    }
  }

  /**
   The greedy assignment is exact for a list of actions exactly when some action can never be approved,
   or no plain action stands before a trade action with the same key.
   */
  lemma GreedyIsExactIff(r: Rules, actions: seq<Action>, notional: string, other: string)
    requires notional != "" && other != "" && r.namesNotional(notional) && !r.namesNotional(other)
    requires r.key("") == ""
    ensures Exact(r, actions)
            <==> || (exists i | 0 <= i < |actions| :: !Approvable(r, actions[i]))
                 || (forall i, j :: !PlainBeforeTrade(r, actions, i, j))
  {
    if i :| 0 <= i < |actions| && !Approvable(r, actions[i]) {
      forall approvals
        ensures !Solvable(r, actions, approvals)
      {
        SolvableIsApprovable(r, actions, approvals);
      }
    } else if forall i, j :: !PlainBeforeTrade(r, actions, i, j) {
      forall approvals | Solvable(r, actions, approvals)
        ensures AllMatched(Choices(r, actions, approvals))
      {
        var f :| Assigns(r, actions, approvals, f);
        OrderedIsNested(r, actions, approvals);
        NestedIsExact(r, actions, approvals, f);
      }
    } else {
      var p, t :| PlainBeforeTrade(r, actions, p, t);
      OwnApprovalsSolve(r, actions, notional, other);
      PlainBeforeTradeSpoils(r, actions, notional, other, p, t);
    }
  }

  const PLAIN_CMD := "rm -rf var/x --reason tidy"
  const TRADE_CMD := "rm -rf var/x --reason 'wallet-transfer'"

  /** How the gate reads the two commands: one key once the reason is cut off, no hazard, and one notional. */
  predicate ReadsBoth(r: Rules) {
    && r.key(PLAIN_CMD) == r.key(TRADE_CMD) == r.key("rm -rf var/x") == "rm -rf var/x"
    && !r.hazardous(PLAIN_CMD) && !r.hazardous(TRADE_CMD)
    && r.namesNotional("max_notional_sol=1") && !r.namesNotional("one directory")
  }

  /**
   An input the gate can receive: the words of a reason count for the categories but not for the key, so a
   recursive delete and the same delete with a transfer in its reason share a key. The first takes the
   notional, and the trade is reported although each could have had its own approval.
   */
  lemma ReasonMakesATradeOfTheSameKey(r: Rules)
    requires ReadsBoth(r)
    ensures
      var actions := [Action(0, PLAIN_CMD, ["fs"]), Action(1, TRADE_CMD, ["fs", "trade"])];
      var approvals := [Approval("rm -rf var/x", "chief", "now", "max_notional_sol=1"),
                        Approval("rm -rf var/x", "chief", "now", "one directory")];
      Assigns(r, actions, approvals, [1, 0]) && !AllMatched(Choices(r, actions, approvals))
  {
    hide Choices, Pick;
    var plain, trade := Action(0, PLAIN_CMD, ["fs"]), Action(1, TRADE_CMD, ["fs", "trade"]);
    var actions := [plain, trade];
    var notional := Approval("rm -rf var/x", "chief", "now", "max_notional_sol=1");
    var other := Approval("rm -rf var/x", "chief", "now", "one directory");
    var approvals := [notional, other];
    assert !plain.Trade() && trade.Trade();
    assert Satisfies(r, notional, plain) && Satisfies(r, other, plain);
    assert Satisfies(r, notional, trade) && !Satisfies(r, other, trade);
    ChoiceAt(r, actions, approvals, 0);
    ChoiceAt(r, actions, approvals, 1);
    var c := Choices(r, actions, approvals);
    PickIsFirst(r, approvals, plain, Used(c[..0]), 0);
    PickIsFirst(r, approvals, trade, Used(c[..1]), 0);
    UsedHasEach(c[..1]);
  }

  /** Nothing is reported exactly when there are approvals, all complete, and every action is matched. */
  lemma NothingReportedExactly(r: Rules, actions: seq<Action>, approvals: seq<Approval>)
    ensures RecordProblems(approvals) == [] <==> forall i | 0 <= i < |approvals| :: Complete(approvals[i])
    ensures var c := Choices(r, actions, approvals); MatchProblems(r, actions, c) == [] <==> AllMatched(c)
  {
    RecordsClean(approvals);
    MatchesClean(r, actions, Choices(r, actions, approvals));
  }

  lemma {:induction false} RecordsClean(approvals: seq<Approval>)
    ensures RecordProblems(approvals) == [] <==> forall i | 0 <= i < |approvals| :: Complete(approvals[i])
  {
    if approvals != [] {
      var n := |approvals| - 1;
      RecordsClean(approvals[..n]);
      assert forall i | 0 <= i < n :: approvals[..n][i] == approvals[i];
    }
  }

  lemma {:induction false} MatchesClean(r: Rules, actions: seq<Action>, choices: seq<Option<nat>>)
    requires |actions| == |choices|
    ensures MatchProblems(r, actions, choices) == [] <==> AllMatched(choices)
  {
    if actions != [] {
      var n := |actions| - 1;
      MatchesClean(r, actions[..n], choices[..n]);
      assert forall i | 0 <= i < n :: choices[..n][i] == choices[i];
    }
  }

  // ---------------------------------------------------------------- what the report says

  /** The report of `ApprovalProblems`, as a function. */
  function Report(r: Rules, actions: seq<Action>, approvals: seq<Approval>): seq<Problem> {
    if approvals == [] then [NoApprovals]
    else RecordProblems(approvals) + MatchProblems(r, actions, Choices(r, actions, approvals))
  }

  /** What an approval answers for a required field; records that are no objects answer nothing. */
  function Field(ap: Approval, name: string): string
    requires ap.Approval?
  {
    if name == "operation" then ap.operation
    else if name == "approved_by" then ap.approvedBy
    else if name == "at" then ap.at
    else ap.blastRadius
  }

  /** The missing names are those of the four fields that are empty, each once. */
  lemma MissingExactly(ap: Approval, name: string)
    requires ap.Approval?
    ensures name in Missing(ap)
            <==> name in ["operation", "approved_by", "at", "blast_radius"] && Field(ap, name) == ""
    ensures |Missing(ap)| == (if ap.operation == "" then 1 else 0) + (if ap.approvedBy == "" then 1 else 0)
                             + (if ap.at == "" then 1 else 0) + (if ap.blastRadius == "" then 1 else 0)
  {
  }

  /** What, when, by whom and how far: an approval that may serve an action says all four, and names its command. */
  predicate Names(r: Rules, ap: Approval, a: Action) {
    && ap.Approval?
    && ap.operation != "" && ap.approvedBy != "" && ap.at != "" && ap.blastRadius != ""
    && !r.hazardous(a.cmd)
    && r.key(a.cmd) != "" && r.key(ap.operation) == r.key(a.cmd)
    && ("trade" in a.categories ==> r.namesNotional(ap.blastRadius))
  }

  lemma SatisfiesExactly(r: Rules, ap: Approval, a: Action)
    ensures Satisfies(r, ap, a) <==> Names(r, ap, a)
  {
  }

  /**
   A clean report means there are approvals, each saying all four things, and each action has one of its own
   that names its command.
   */
  lemma CleanReportApproves(r: Rules, actions: seq<Action>, approvals: seq<Approval>)
    requires Report(r, actions, approvals) == []
    ensures approvals != []
    ensures forall i | 0 <= i < |approvals| ::
              && approvals[i].Approval? && approvals[i].operation != "" && approvals[i].approvedBy != ""
              && approvals[i].at != "" && approvals[i].blastRadius != ""
    ensures exists f: seq<nat> ::
              && |f| == |actions|
              && (forall i | 0 <= i < |f| :: f[i] < |approvals| && Names(r, approvals[f[i]], actions[i]))
              && (forall i, j | 0 <= i < j < |f| :: f[i] != f[j])
  {
    hide Choices, RecordProblems, MatchProblems;
    NothingReportedExactly(r, actions, approvals);
    MatchedMeansAssigned(r, actions, approvals);
    var f := Values(Choices(r, actions, approvals));
    AssignedMeansNamed(r, actions, approvals, f);
  }

  lemma AssignedMeansNamed(r: Rules, actions: seq<Action>, approvals: seq<Approval>, f: seq<nat>)
    requires Assigns(r, actions, approvals, f)
    ensures |f| == |actions|
    ensures forall i | 0 <= i < |f| :: f[i] < |approvals| && Names(r, approvals[f[i]], actions[i])
    ensures forall i, j | 0 <= i < j < |f| :: f[i] != f[j]
  {
    hide Names, Satisfies;
    forall i | 0 <= i < |f|
      ensures f[i] < |approvals| && Names(r, approvals[f[i]], actions[i])
    {
      SatisfiesExactly(r, approvals[f[i]], actions[i]);
    }
  }

  /** And it is clean whenever that can be had, no plain action standing before a trade of the same key. */
  lemma CleanReportGiven(r: Rules, actions: seq<Action>, approvals: seq<Approval>, f: seq<nat>)
    requires forall i, j :: !PlainBeforeTrade(r, actions, i, j)
    requires approvals != []
    requires forall i | 0 <= i < |approvals| ::
               && approvals[i].Approval? && approvals[i].operation != "" && approvals[i].approvedBy != ""
               && approvals[i].at != "" && approvals[i].blastRadius != ""
    requires |f| == |actions| && forall i, j | 0 <= i < j < |f| :: f[i] != f[j]
    requires forall i | 0 <= i < |f| :: f[i] < |approvals| && Names(r, approvals[f[i]], actions[i])
    ensures Report(r, actions, approvals) == []
  {
    hide Choices, RecordProblems, MatchProblems, Nested;
    forall i | 0 <= i < |f|
      ensures Satisfies(r, approvals[f[i]], actions[i])
    {
      SatisfiesExactly(r, approvals[f[i]], actions[i]);
    }
    OrderedIsNested(r, actions, approvals);
    NestedIsExact(r, actions, approvals, f);
    NothingReportedExactly(r, actions, approvals);
  }

  lemma {:induction false} RecordReported(approvals: seq<Approval>, p: Problem)
    ensures p in RecordProblems(approvals)
            <==> || (p.NotAnApproval? && p.position < |approvals| && approvals[p.position].NotAnObject?)
                 || (p.Incomplete? && p.position < |approvals| && approvals[p.position].Approval?
                     && p.missing != [] && p.missing == Missing(approvals[p.position]))
  {
    if approvals != [] {
      var n := |approvals| - 1;
      RecordReported(approvals[..n], p);
    }
  }

  /** An action that no choice was left for, told as hazardous or as unnamed. */
  predicate Complains(r: Rules, a: Action, c: Option<nat>, p: Problem) {
    && c.None?
    && (if r.hazardous(a.cmd) then p == Hazards(a.index) else p == NoNamedApproval(a.index, "trade" in a.categories))
  }

  lemma {:induction false} MatchReported(r: Rules, actions: seq<Action>, choices: seq<Option<nat>>, p: Problem)
    requires |actions| == |choices|
    ensures p in MatchProblems(r, actions, choices)
            <==> exists i | 0 <= i < |actions| :: Complains(r, actions[i], choices[i], p)
  {
    if actions != [] {
      var n := |actions| - 1;
      var before, earlier := actions[..n], choices[..n];
      MatchReported(r, before, earlier, p);
      forall i | 0 <= i < n
        ensures Complains(r, before[i], earlier[i], p) == Complains(r, actions[i], choices[i], p)
      {
      }
      assert p in MatchProblems(r, actions, choices)
        <==> p in MatchProblems(r, before, earlier) || Complains(r, actions[n], choices[n], p);
    }
  }

  /** Every line of the report, and nothing else: no approvals, a bad record at its place, an action left over. */
  lemma ReportExactly(r: Rules, actions: seq<Action>, approvals: seq<Approval>, p: Problem)
    ensures p in Report(r, actions, approvals)
            <==> if approvals == [] then p == NoApprovals
                 else match p
                   case NoApprovals => false
                   case NotAnApproval(k) => k < |approvals| && approvals[k].NotAnObject?
                   case Incomplete(k, missing) =>
                     k < |approvals| && approvals[k].Approval? && missing != [] && missing == Missing(approvals[k])
                   case _ => exists i | 0 <= i < |actions| ::
                               Complains(r, actions[i], Choices(r, actions, approvals)[i], p)
  {
    if approvals != [] {
      RecordReported(approvals, p);
      MatchReported(r, actions, Choices(r, actions, approvals), p);
    }
  }

  /** An action is left over exactly when earlier actions took each approval that names it. */
  lemma LeftOverExactly(r: Rules, actions: seq<Action>, approvals: seq<Approval>, i: nat)
    requires i < |actions|
    ensures
      var c := Choices(r, actions, approvals);
      c[i].None? <==> forall k | 0 <= k < |approvals| && Names(r, approvals[k], actions[i]) :: Some(k) in c[..i]
  {
    var c := Choices(r, actions, approvals);
    ChoiceAt(r, actions, approvals, i);
    PickIsFirst(r, approvals, actions[i], Used(c[..i]), 0);
    UsedHasEach(c[..i]);
    forall k | 0 <= k < |approvals|
      ensures Names(r, approvals[k], actions[i]) == Satisfies(r, approvals[k], actions[i])
    {
      SatisfiesExactly(r, approvals[k], actions[i]);
    }
  }
}
