/**
 What a sequence of ticks of the typewriter cycler does: the invariant holds
 in every reachable state, typing reaches the whole role in a bounded number
 of ticks, deleting reaches the empty text, and one round over all roles
 returns to the starting role.
 */
module TypewriterProgress {
  import opened Typewriter

  /** The state after `k` ticks from `s`. */
  function Run(roles: seq<string>, s: State, k: nat): (r: State)
    requires |roles| > 0 && InRange(roles, s)
    ensures InRange(roles, r)
    decreases k
  {
    if k == 0 then s else Run(roles, Next(roles, s), k - 1)
  }

  /** Running `a` ticks and then `b` more is running `a + b` ticks. */
  lemma {:induction false} RunSplit(roles: seq<string>, s: State, a: nat, b: nat)
    requires InRange(roles, s)
    ensures Run(roles, s, a + b) == Run(roles, Run(roles, s, a), b)
    decreases a
  {
    if a > 0 {
      var s' := Next(roles, s);
      RunSplit(roles, s', a - 1, b);
      assert Run(roles, s, a + b) == Run(roles, s', (a - 1) + b);
      assert Run(roles, s, a) == Run(roles, s', a - 1);
    }
  }

  /** Any number of ticks keeps the invariant. */
  lemma {:induction false} RunKeepsInv(roles: seq<string>, s: State, k: nat)
    requires Inv(roles, s)
    ensures Inv(roles, Run(roles, s, k))
    decreases k
  {
    if k > 0 {
      NextKeepsInv(roles, s);
      RunKeepsInv(roles, Next(roles, s), k - 1);
    }
  }

  /** In every state reachable from the mount state, the index is in range
      and the text is a prefix of the current role. */
  lemma Reachable(roles: seq<string>, k: nat)
    requires |roles| > 0
    ensures Run(roles, Init, k).index < |roles|
    ensures Run(roles, Init, k).text <= roles[Run(roles, Init, k).index]
  {
    RunKeepsInv(roles, Init, k);
  }

  /** From the mount state, every tick changes the state, so the effect
      always re-runs and the animation never stops on its own. */
  lemma NeverStops(roles: seq<string>, k: nat)
    requires |roles| > 0
    ensures Run(roles, Init, k + 1) != Run(roles, Init, k)
  {
    RunKeepsInv(roles, Init, k);
    TickChangesState(roles, Run(roles, Init, k));
    RunSplit(roles, Init, k, 1);
  }

  /** While typing, `j` ticks show the prefix `j` characters longer, as long
      as the role is not yet complete. */
  lemma {:induction false} TypingProgress(roles: seq<string>, s: State, j: nat)
    requires Inv(roles, s) && !s.deleting
    requires |s.text| + j <= |roles[s.index]|
    ensures Run(roles, s, j) == s.(text := roles[s.index][..|s.text| + j])
    decreases j
  {
    var role := roles[s.index];
    if j > 0 {
      TypeTick(roles, s);
      NextKeepsInv(roles, s);
      TypingProgress(roles, Next(roles, s), j - 1);
    } else {
      assert role[..|s.text|] == s.text;
    }
  }

  /** From a typing state, exactly `|role| - |text|` typing ticks reach the
      hold condition: every earlier tick types, the last one shows the whole
      role, and only then does the hold branch run. */
  lemma TypingReachesHold(roles: seq<string>, s: State)
    requires Inv(roles, s) && !s.deleting
    ensures Run(roles, s, |roles[s.index]| - |s.text|) == s.(text := roles[s.index])
    ensures PhaseOf(roles, Run(roles, s, |roles[s.index]| - |s.text|)) == Hold
    ensures forall j :: 0 <= j < |roles[s.index]| - |s.text| ==>
                          PhaseOf(roles, Run(roles, s, j)) == Type
  {
    var role := roles[s.index];
    TypingProgress(roles, s, |role| - |s.text|);
    assert role[..|role|] == role;
    forall j | 0 <= j < |role| - |s.text|
      ensures PhaseOf(roles, Run(roles, s, j)) == Type
    {
      TypingBeforeHold(roles, s, j);
    }
  }

  /** Before the role is complete, every tick from a typing state is a typing tick. */
  lemma TypingBeforeHold(roles: seq<string>, s: State, j: nat)
    requires Inv(roles, s) && !s.deleting
    requires |s.text| + j < |roles[s.index]|
    ensures PhaseOf(roles, Run(roles, s, j)) == Type
  {
    TypingProgress(roles, s, j);
    assert |Run(roles, s, j).text| < |roles[s.index]|;
  }

  /** While deleting, `j` ticks remove the last `j` characters. */
  lemma {:induction false} DeletingProgress(roles: seq<string>, s: State, j: nat)
    requires InRange(roles, s) && s.deleting
    requires j <= |s.text|
    ensures Run(roles, s, j) == s.(text := s.text[..|s.text| - j])
    decreases j
  {
    if j > 0 {
      DeleteTick(roles, s);
      var s' := Next(roles, s);
      DeletingProgress(roles, s', j - 1);
      assert s.text[..|s.text| - 1][..|s.text| - 1 - (j - 1)] == s.text[..|s.text| - j];
    } else {
      assert s.text[..|s.text|] == s.text;
    }
  }

  /** The number of ticks one role takes from empty text to the next role:
      type it, hold, delete it, advance. */
  function CycleTicks(role: string): nat
  {
    |role| + 1 + |role| + 1
  }

  /** Reaching `s1` in `a` ticks and then `s2` in `b` more reaches `s2` in `a + b` ticks. */
  lemma RunThen(roles: seq<string>, s0: State, s1: State, s2: State, a: nat, b: nat, k: nat)
    requires InRange(roles, s0) && k == a + b
    requires Run(roles, s0, a) == s1 && Run(roles, s1, b) == s2
    ensures Run(roles, s0, k) == s2
  {
    RunSplit(roles, s0, a, b);
  }

  /** One tick of `Run` is one `Next`. */
  lemma RunOne(roles: seq<string>, s: State)
    requires InRange(roles, s)
    ensures Run(roles, s, 1) == Next(roles, s)
  {
    assert Run(roles, Next(roles, s), 0) == Next(roles, s);
  }

  /** Typing a role out from empty text and holding it takes `|role| + 1` ticks. */
  lemma TypeAndHold(roles: seq<string>, i: nat)
    requires i < |roles|
    ensures Run(roles, State(i, "", false), |roles[i]| + 1) == State(i, roles[i], true)
  {
    var s0, s1 := State(i, "", false), State(i, roles[i], false);
    TypingReachesHold(roles, s0);
    RunOne(roles, s1);
    RunSplit(roles, s0, |roles[i]|, 1);
  }

  /** Deleting a whole role and advancing takes `|role| + 1` ticks. */
  lemma DeleteAndAdvance(roles: seq<string>, i: nat)
    requires i < |roles|
    ensures Run(roles, State(i, roles[i], true), |roles[i]| + 1) == State(NextIndex(i, |roles|), "", false)
  {
    var s2, s3 := State(i, roles[i], true), State(i, "", true);
    DeletingProgress(roles, s2, |roles[i]|);
    assert roles[i][..0] == "";
    RunOne(roles, s3);
    RunSplit(roles, s2, |roles[i]|, 1);
  }

  /** One full cycle of a role ends with empty text, not deleting, on the next role. */
  lemma FullCycle(roles: seq<string>, i: nat)
    requires i < |roles|
    ensures Run(roles, State(i, "", false), CycleTicks(roles[i])) == State(NextIndex(i, |roles|), "", false)
  {
    TypeAndHold(roles, i);
    DeleteAndAdvance(roles, i);
    RunThen(roles, State(i, "", false), State(i, roles[i], true), State(NextIndex(i, |roles|), "", false),
            |roles[i]| + 1, |roles[i]| + 1, CycleTicks(roles[i]));
  }

  /** The number of ticks of `k` consecutive full cycles starting at role `i`. */
  function RoundTicks(roles: seq<string>, i: nat, k: nat): nat
    requires i < |roles|
    decreases k
  {
    if k == 0 then 0 else CycleTicks(roles[i]) + RoundTicks(roles, NextIndex(i, |roles|), k - 1)
  }

  /** The role index after `k` advances from `i`. */
  function IndexAfter(i: nat, k: nat, n: nat): (r: nat)
    requires i < n
    ensures r < n
    decreases k
  {
    if k == 0 then i else IndexAfter(NextIndex(i, n), k - 1, n)
  }

  /** Advancing `a` times and then `b` more is advancing `a + b` times. */
  lemma {:induction false} IndexAfterSplit(i: nat, a: nat, b: nat, n: nat)
    requires i < n
    ensures IndexAfter(i, a + b, n) == IndexAfter(IndexAfter(i, a, n), b, n)
    decreases a
  {
    if a > 0 {
      IndexAfterSplit(NextIndex(i, n), a - 1, b, n);
    }
  }

  /** Advances that stay below `n` just count up. */
  lemma {:induction false} IndexAfterCounts(i: nat, k: nat, n: nat)
    requires i + k < n
    ensures IndexAfter(i, k, n) == i + k
    decreases k
  {
    if k > 0 {
      IndexAfterCounts(i + 1, k - 1, n);
    }
  }

  /** From `i`, `n - i` advances wrap around to the first role. */
  lemma {:induction false} IndexAfterWraps(i: nat, n: nat)
    requires i < n
    ensures IndexAfter(i, n - i, n) == 0
    decreases n - i
  {
    if i + 1 < n {
      IndexAfterWraps(i + 1, n);
    }
  }

  /** `n` advances from any index come back to it. */
  lemma IndexAfterRound(i: nat, n: nat)
    requires i < n
    ensures IndexAfter(i, n, n) == i
  {
    IndexAfterSplit(i, n - i, i, n);
    IndexAfterWraps(i, n);
    if i > 0 {
      IndexAfterCounts(0, i, n);
    }
  }

  /** After `k` full cycles from the start of role `i` the cycler is at the
      start of the role `k` advances further on. */
  lemma {:induction false} Rotation(roles: seq<string>, i: nat, k: nat)
    requires i < |roles|
    ensures Run(roles, State(i, "", false), RoundTicks(roles, i, k)) == State(IndexAfter(i, k, |roles|), "", false)
    decreases k
  {
    if k > 0 {
      var i' := NextIndex(i, |roles|);
      FullCycle(roles, i);
      Rotation(roles, i', k - 1);
      RunSplit(roles, State(i, "", false), CycleTicks(roles[i]), RoundTicks(roles, i', k - 1));
    }
  }

  /** A round of `|roles|` full cycles returns to the starting role with empty text. */
  lemma WholeRound(roles: seq<string>, i: nat)
    requires i < |roles|
    ensures Run(roles, State(i, "", false), RoundTicks(roles, i, |roles|)) == State(i, "", false)
  {
    Rotation(roles, i, |roles|);
    IndexAfterRound(i, |roles|);
  }

  /** After mounting, the first role is typed out in full before anything is deleted. */
  lemma FirstRoleShown(roles: seq<string>)
    requires |roles| > 0
    ensures Run(roles, Init, |roles[0]|) == State(0, roles[0], false)
    ensures forall j :: 0 <= j < |roles[0]| ==> !Run(roles, Init, j).deleting
  {
    TypingReachesHold(roles, Init);
    forall j | 0 <= j < |roles[0]|
      ensures !Run(roles, Init, j).deleting
    {
      TypingProgress(roles, Init, j);
    }
  }

  /** The banner shows "Frontend Developer" 18 ticks after mounting, and after
      one round of all three roles it is back at the mount state. */
  lemma HeroBanner()
    ensures Run(HeroRoles, Init, 18) == State(0, "Frontend Developer", false)
    ensures Run(HeroRoles, Init, RoundTicks(HeroRoles, 0, 3)) == Init
  {
    FirstRoleShown(HeroRoles);
    WholeRound(HeroRoles, 0);
  }
}
