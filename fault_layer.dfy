/** The fault-injection controller of the server's test harness
    (server/tests/harness/fault_layer.rs): an ordered list of rules, each keeping its own
    counter, which every gRPC request consults to be rejected, delayed or let through. */
module FaultLayer {
  import opened Wrappers

  /** The gRPC status codes the rules use; any other code is kept by its number. */
  datatype GrpcCode = Unavailable | Internal | OtherCode(number: int)

  /** A rule with its counter: `remaining` rejections still to make, or the number of
      requests `counter` that have reached a drop-every-`n` rule. */
  datatype FaultRule =
    | RejectNextN(remaining: nat, code: GrpcCode, message: string)
    | DelayAll(durationNanos: nat)
    | DropEveryN(n: nat, counter: nat)

  datatype FaultAction = Reject(code: GrpcCode, message: string) | Delay(durationNanos: nat)

  const DropMessage: string := "fault: drop_every_n"

  /** `FaultRule::reject_next_n`. */
  function RejectNext(n: nat, code: GrpcCode, message: string): (r: FaultRule)
    ensures r.RejectNextN? && r.remaining == n && r.code == code && r.message == message
  {
    RejectNextN(n, code, message)
  }

  /** `FaultRule::drop_every_n`: its counter starts at zero. */
  function DropEvery(n: nat): (r: FaultRule)
    ensures r.DropEveryN? && r.n == n && r.counter == 0
  {
    DropEveryN(n, 0)
  }

  /** A drop-every-`n` rule with `n` zero would divide by zero on its first request. */
  predicate WellFormed(r: FaultRule) {
    r.DropEveryN? ==> r.n > 0
  }

  /** Whether a request reaching the rule is faulted by it. */
  predicate Fires(r: FaultRule)
    requires WellFormed(r)
  {
    match r
    case RejectNextN(rem, _, _) => rem > 0
    case DelayAll(_) => true
    case DropEveryN(n, counter) => (counter + 1) % n == 0
  }

  /** The fault a firing rule applies. */
  function ActionOf(r: FaultRule): FaultAction {
    match r
    case RejectNextN(_, code, message) => Reject(code, message)
    case DelayAll(d) => Delay(d)
    case DropEveryN(_, _) => Reject(Unavailable, DropMessage)
  }

  /** What a request reaching the rule does to its counter: a rejection still owed is
      used up, a drop-every-`n` rule counts the request whether it fires or not. */
  function Step(r: FaultRule): (s: FaultRule)
    ensures WellFormed(r) ==> WellFormed(s)
  {
    match r
    case RejectNextN(rem, code, message) => if rem > 0 then RejectNextN(rem - 1, code, message) else r
    case DelayAll(_) => r
    case DropEveryN(n, counter) => DropEveryN(n, counter + 1)
  }

  predicate AllWellFormed(rules: seq<FaultRule>) {
    forall i :: 0 <= i < |rules| ==> WellFormed(rules[i])
  }

  /** Every rule reached by a request that passes them all. */
  function StepAll(rules: seq<FaultRule>): (r: seq<FaultRule>)
    ensures |r| == |rules|
    ensures forall i :: 0 <= i < |rules| ==> r[i] == Step(rules[i])
  {
    seq(|rules|, i requires 0 <= i < |rules| => Step(rules[i]))
  }

  /** `evaluate` as a function of the rules: the rules are reached in order until one
      fires; each rule reached takes its step, the ones after the firing rule are not
      reached. */
  function EvalRules(rules: seq<FaultRule>): (res: (Option<FaultAction>, seq<FaultRule>))
    requires AllWellFormed(rules)
    ensures |res.1| == |rules| && AllWellFormed(res.1)
    decreases |rules|
  {
    if rules == [] then (None, [])
    else if Fires(rules[0]) then (Some(ActionOf(rules[0])), [Step(rules[0])] + rules[1..])
    else
      var tail := EvalRules(rules[1..]);
      (tail.0, [Step(rules[0])] + tail.1)
  }

  /** When no rule fires the request passes, and every rule has taken its step. */
  lemma {:induction false} EvalRulesPass(rules: seq<FaultRule>)
    requires AllWellFormed(rules)
    requires forall i :: 0 <= i < |rules| ==> !Fires(rules[i])
    ensures EvalRules(rules) == (None, StepAll(rules))
    decreases |rules|
  {
    if rules != [] {
      EvalRulesPass(rules[1..]);
      assert StepAll(rules) == [Step(rules[0])] + StepAll(rules[1..]);
    }
  }

  /** The first rule that fires decides the fault; it and every rule before it take their
      step and the later ones are untouched. */
  lemma {:induction false} EvalRulesFire(rules: seq<FaultRule>, i: nat)
    requires AllWellFormed(rules)
    requires i < |rules| && Fires(rules[i])
    requires forall j :: 0 <= j < i ==> !Fires(rules[j])
    ensures EvalRules(rules) == (Some(ActionOf(rules[i])), StepAll(rules[..i + 1]) + rules[i + 1..])
    decreases |rules|
  {
    if i == 0 {
      assert StepAll(rules[..1]) == [Step(rules[0])];
    } else {
      var tail := rules[1..];
      assert !Fires(rules[0]);
      EvalRulesFire(tail, i - 1);
      assert tail[..i] == rules[1..i + 1] && tail[i..] == rules[i + 1..];
      assert StepAll(rules[..i + 1]) == [Step(rules[0])] + StepAll(tail[..i]);
      assert EvalRules(rules) == (EvalRules(tail).0, [Step(rules[0])] + EvalRules(tail).1);
      assert tail[i - 1] == rules[i];
      assert [Step(rules[0])] + (StepAll(tail[..i]) + tail[i..]) ==
             ([Step(rules[0])] + StepAll(tail[..i])) + tail[i..];
    }
  }

  /** A rule that always fires shadows every rule after it, which keeps its counter. */
  lemma DelayShadows(d: nat, rest: seq<FaultRule>)
    requires AllWellFormed(rest)
    ensures AllWellFormed([DelayAll(d)] + rest)
    ensures EvalRules([DelayAll(d)] + rest) == (Some(Delay(d)), [DelayAll(d)] + rest)
  {
    var rules := [DelayAll(d)] + rest;
    assert rules[0] == DelayAll(d) && rules[1..] == rest;
  }

  /** The faults of `m` requests in a row, starting from `rules`. */
  function Faults(rules: seq<FaultRule>, m: nat): (fs: seq<Option<FaultAction>>)
    requires AllWellFormed(rules)
    decreases m
  {
    if m == 0 then []
    else
      var (a, after) := EvalRules(rules);
      [a] + Faults(after, m - 1)
  }

  /** A lone reject-next-`n` rule rejects exactly the next `n` requests with its code and
      message and lets every later one through. */
  lemma {:induction false} RejectNextNFaults(n: nat, code: GrpcCode, message: string, m: nat)
    ensures AllWellFormed([RejectNextN(n, code, message)])
    ensures var fs := Faults([RejectNextN(n, code, message)], m);
            |fs| == m && forall i :: 0 <= i < m ==> fs[i] == (if i < n then Some(Reject(code, message)) else None)
    decreases m
  {
    if m > 0 {
      var rule := RejectNextN(n, code, message);
      var next := if n > 0 then n - 1 else 0;
      if n > 0 {
        EvalRulesFire([rule], 0);
      } else {
        EvalRulesPass([rule]);
      }
      assert [rule][..1] == [rule] && [rule][1..] == [];
      assert StepAll([rule]) == [Step(rule)] == [RejectNextN(next, code, message)];
      RejectNextNFaults(next, code, message, m - 1);
    }
  }

  /** A lone drop-every-`n` rule whose counter stands at `c` rejects the `i`-th following
      request (from zero) exactly when `c + i + 1` is a multiple of `n`. */
  lemma {:induction false} DropEveryNFaults(n: nat, c: nat, m: nat)
    requires n > 0
    ensures AllWellFormed([DropEveryN(n, c)])
    ensures var fs := Faults([DropEveryN(n, c)], m);
            |fs| == m && forall i :: 0 <= i < m ==>
              fs[i] == (if (c + i + 1) % n == 0 then Some(Reject(Unavailable, DropMessage)) else None)
    decreases m
  {
    if m > 0 {
      var rule := DropEveryN(n, c);
      if (c + 1) % n == 0 {
        EvalRulesFire([rule], 0);
      } else {
        EvalRulesPass([rule]);
      }
      assert [rule][..1] == [rule] && [rule][1..] == [];
      assert StepAll([rule]) == [Step(rule)] == [DropEveryN(n, c + 1)];
      DropEveryNFaults(n, c + 1, m - 1);
    }
  }

  /** `FaultController`: the shared list of rules. */
  class FaultController {
    var rules: seq<FaultRule>

    ghost predicate Valid()
      reads this
    {
      AllWellFormed(rules)
    }

    constructor ()
      ensures Valid() && rules == []
    {
      rules := [];
    }

    /** `add_rule`: the rule goes after the existing ones. */
    method AddRule(rule: FaultRule)
      requires Valid() && WellFormed(rule)
      modifies this
      ensures Valid() && rules == old(rules) + [rule]
    {
      rules := rules + [rule];
    }

    /** `clear`: no rule is left. */
    method Clear()
      modifies this
      ensures Valid() && rules == []
    {
      rules := [];
    }

    /** `evaluate`: the rules are scanned in order, each one reached updating its counter,
        and the first fault found is returned. */
    method Evaluate() returns (action: Option<FaultAction>)
      requires Valid()
      modifies this
      ensures Valid()
      ensures action == EvalRules(old(rules)).0 && rules == EvalRules(old(rules)).1
    {
      ghost var orig := rules;
      var i := 0;
      assert orig[0..] == orig && rules[..0] == [];
      while i < |rules|
        invariant |rules| == |orig| && 0 <= i <= |rules| && AllWellFormed(rules) && AllWellFormed(orig)
        invariant rules[i..] == orig[i..]
        invariant EvalRules(orig).0 == EvalRules(orig[i..]).0
        invariant EvalRules(orig).1 == rules[..i] + EvalRules(orig[i..]).1
        decreases |orig| - i
      {
        var rule := rules[i];
        ScanStep(orig, rules, i);
        match rule {
          case RejectNextN(rem, code, message) =>
            if rem > 0 {
              rules := rules[i := RejectNextN(rem - 1, code, message)];
              return Some(Reject(code, message));
            }
            assert rules == rules[i := Step(rule)];
          case DelayAll(d) =>
            assert rules == rules[i := Step(rule)];
            return Some(Delay(d));
          case DropEveryN(n, counter) =>
            var count := counter + 1;
            rules := rules[i := DropEveryN(n, count)];
            if count % n == 0 {
              return Some(Reject(Unavailable, DropMessage));
            }
        }
        i := i + 1;
      }
      assert rules[..i] == rules && orig[i..] == [];
      action := None;
    }
  }

  /** One rule of `evaluate`'s scan, with the rules before it already stepped: the rule
      at `i` takes its step, and either fires, which settles the whole evaluation, or hands
      on to the rules after it. */
  lemma ScanStep(orig: seq<FaultRule>, rules: seq<FaultRule>, i: nat)
    requires |rules| == |orig| && i < |rules| && AllWellFormed(rules) && AllWellFormed(orig)
    requires rules[i..] == orig[i..]
    requires EvalRules(orig).0 == EvalRules(orig[i..]).0
    requires EvalRules(orig).1 == rules[..i] + EvalRules(orig[i..]).1
    ensures var after := rules[i := Step(rules[i])];
            AllWellFormed(after) && after[i + 1..] == orig[i + 1..] &&
            (Fires(rules[i]) ==> EvalRules(orig).0 == Some(ActionOf(rules[i])) && EvalRules(orig).1 == after) &&
            (!Fires(rules[i]) ==> EvalRules(orig).0 == EvalRules(orig[i + 1..]).0 &&
                                  EvalRules(orig).1 == after[..i + 1] + EvalRules(orig[i + 1..]).1)
  {
    StepWellFormed(rules, i);
    Splice(rules, orig, i, Step(rules[i]));
    if Fires(rules[i]) {
      ScanFires(orig, rules, i);
    } else {
      ScanPasses(orig, rules, i);
    }
  }

  /** The rule at `i` fires: the evaluation's fault is its action, and the rules after it
      are left as they were. */
  lemma ScanFires(orig: seq<FaultRule>, rules: seq<FaultRule>, i: nat)
    requires |rules| == |orig| && i < |rules| && AllWellFormed(rules) && AllWellFormed(orig)
    requires rules[i..] == orig[i..]
    requires EvalRules(orig).0 == EvalRules(orig[i..]).0
    requires EvalRules(orig).1 == rules[..i] + EvalRules(orig[i..]).1
    requires Fires(rules[i])
    ensures EvalRules(orig).0 == Some(ActionOf(rules[i]))
    ensures EvalRules(orig).1 == rules[i := Step(rules[i])]
  {
    var x := Step(rules[i]);
    EvalFrom(orig, i);
    Splice(rules, orig, i, x);
    assert rules[..i] + ([x] + orig[i + 1..]) == rules[..i] + [x] + orig[i + 1..];
  }

  /** The rule at `i` does not fire: it takes its step and the evaluation goes on from the
      rule after it. */
  lemma ScanPasses(orig: seq<FaultRule>, rules: seq<FaultRule>, i: nat)
    requires |rules| == |orig| && i < |rules| && AllWellFormed(rules) && AllWellFormed(orig)
    requires rules[i..] == orig[i..]
    requires EvalRules(orig).0 == EvalRules(orig[i..]).0
    requires EvalRules(orig).1 == rules[..i] + EvalRules(orig[i..]).1
    requires !Fires(rules[i])
    ensures var e2 := EvalRules(orig[i + 1..]);
            EvalRules(orig).0 == e2.0 &&
            EvalRules(orig).1 == rules[i := Step(rules[i])][..i + 1] + e2.1
  {
    var x := Step(rules[i]);
    var e2 := EvalRules(orig[i + 1..]);
    var e := EvalRules(orig[i..]);
    assert e.0 == e2.0 && e.1 == [x] + e2.1 by {
      EvalFrom(orig, i);
    }
    assert rules[i := x][..i + 1] == rules[..i] + [x] by {
      Splice(rules, orig, i, x);
    }
    assert rules[..i] + ([x] + e2.1) == (rules[..i] + [x]) + e2.1;
  }

  /** Stepping one rule keeps every rule well formed. */
  lemma StepWellFormed(rules: seq<FaultRule>, i: nat)
    requires AllWellFormed(rules) && i < |rules|
    ensures AllWellFormed(rules[i := Step(rules[i])])
  {
  }

  /** One rule of `evaluate`'s scan: the rule at `i` fires and ends it, or takes its step
      and hands on to the rest. */
  lemma EvalFrom(rules: seq<FaultRule>, i: nat)
    requires AllWellFormed(rules) && i < |rules|
    ensures EvalRules(rules[i..]) ==
              if Fires(rules[i]) then (Some(ActionOf(rules[i])), [Step(rules[i])] + rules[i + 1..])
              else (EvalRules(rules[i + 1..]).0, [Step(rules[i])] + EvalRules(rules[i + 1..]).1)
  {
    assert rules[i..][0] == rules[i] && rules[i..][1..] == rules[i + 1..];
  }

  /** Replacing the element at `i` of a sequence whose tail from `i` is `orig`'s. */
  lemma Splice<T>(s: seq<T>, orig: seq<T>, i: nat, x: T)
    requires |s| == |orig| && i < |s| && s[i..] == orig[i..]
    ensures s[i := x] == s[..i] + [x] + orig[i + 1..]
    ensures s[i := x][..i + 1] == s[..i] + [x] && s[i := x][i + 1..] == orig[i + 1..]
    ensures s[i] == orig[i]
  {
    assert s[i..][0] == s[i] && orig[i..][0] == orig[i];
    assert s[i + 1..] == s[i..][1..] == orig[i..][1..] == orig[i + 1..];
  }

  /** `reject_next_n(2)` rejects two requests and lets the third through. */
  method RejectTwiceThenPass() returns (first: Option<FaultAction>, second: Option<FaultAction>,
                                        third: Option<FaultAction>)
    ensures first == second == Some(Reject(Unavailable, "test")) && third == None
  {
    var ctrl := new FaultController();
    ctrl.AddRule(RejectNext(2, Unavailable, "test"));
    first := ctrl.Evaluate();
    second := ctrl.Evaluate();
    third := ctrl.Evaluate();
  }

  /** After `clear` a request that a rule was rejecting passes. */
  method ClearedControllerPasses() returns (before: Option<FaultAction>, after: Option<FaultAction>)
    ensures before == Some(Reject(Internal, "test")) && after == None
  {
    var ctrl := new FaultController();
    ctrl.AddRule(RejectNext(100, Internal, "test"));
    before := ctrl.Evaluate();
    ctrl.Clear();
    after := ctrl.Evaluate();
  }

  /** `drop_every_n(3)` lets two requests through and drops the third, twice over. */
  method DropEveryThird() returns (fs: seq<Option<FaultAction>>)
    ensures |fs| == 6
    ensures forall i :: 0 <= i < 6 ==> (fs[i].Some? <==> i == 2 || i == 5)
  {
    var ctrl := new FaultController();
    ctrl.AddRule(DropEvery(3));
    fs := [];
    var k := 0;
    while k < 6
      invariant 0 <= k <= 6 && |fs| == k && ctrl.Valid()
      invariant ctrl.rules == [DropEveryN(3, k)]
      invariant forall i :: 0 <= i < k ==> (fs[i].Some? <==> i == 2 || i == 5)
      modifies ctrl
    {
      assert [DropEveryN(3, k)][1..] == [];
      var a := ctrl.Evaluate();
      fs := fs + [a];
      k := k + 1;
    }
  }
}
