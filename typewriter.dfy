/**
 The typing animation of the portfolio's hero banner: a cycler that types a
 role string one character at a time, holds it, deletes it one character at a
 time and then moves on to the next role, forever.

 One tick is one run of the animation effect together with the timeout it
 schedules. Instead of waiting, a tick returns the delay (in milliseconds) it
 would schedule before its state update takes effect.
 */
module Typewriter {

  /** The roles the hero banner cycles through. */
  const HeroRoles: seq<string> := [
    "Frontend Developer",
    "React Developer",
    "MERN Stack Developer"
  ]

  /** The three pieces of state of the effect: role index, displayed text, deleting flag. */
  datatype State = State(index: nat, text: string, deleting: bool)

  /** The state the banner mounts with. */
  const Init: State := State(0, "", false)

  /** Which branch of the effect a tick takes, in the order the effect tries them. */
  datatype Phase = Hold | Advance | Delete | Type

  /** A role index that can be looked up in `roles`. */
  predicate InRange(roles: seq<string>, s: State)
  {
    s.index < |roles|
  }

  /** The invariant of every reachable state: the index is in range and the
      displayed text is a prefix of the current role. */
  predicate Inv(roles: seq<string>, s: State)
  {
    s.index < |roles| && s.text <= roles[s.index]
  }

  /** The delay of a character step: 50 ms while deleting, 100 ms while typing. */
  function TypingSpeed(deleting: bool): nat
  {
    if deleting then 50 else 100
  }

  /** The delay of the hold step, computed for both values of the flag as the
      effect does; only the non-deleting value is ever used (PauseAlwaysFull). */
  function PauseTime(deleting: bool): nat
  {
    if deleting then 500 else 2000
  }

  /** The next role index, wrapping around after the last role. */
  function NextIndex(i: nat, n: nat): (r: nat)
    requires n > 0
    ensures r < n
    ensures i + 1 < n ==> r == i + 1
    ensures i + 1 == n ==> r == 0
  {
    (i + 1) % n
  }

  /** `prev.slice(0, -1)`: the prefix of the text one character shorter; the
      empty text stays empty. Prefix and length determine the result. */
  function DropLast(prev: string): (r: string)
    ensures r <= prev
    ensures |r| == if prev == [] then 0 else |prev| - 1
  {
    if prev == [] then [] else prev[..|prev| - 1]
  }

  /** Dropping the last character is undone by appending it again. */
  lemma DropLastRemovesLast(prev: string)
    requires prev != []
    ensures DropLast(prev) + [prev[|prev| - 1]] == prev
  {
  }

  /** `role.slice(0, prev.length + 1)`: the prefix of the role one character
      longer than `prev`, clamped to the whole role. */
  function GrowPrefix(role: string, prev: string): (r: string)
    ensures r <= role
    ensures |r| == if |prev| < |role| then |prev| + 1 else |role|
  {
    if |prev| + 1 <= |role| then role[..|prev| + 1] else role
  }

  /** On a proper prefix of the role, growing appends the role's next character. */
  lemma GrowPrefixExtends(role: string, prev: string)
    requires prev <= role && prev != role
    ensures GrowPrefix(role, prev) == prev + [role[|prev|]]
  {
  }

  /** The branch a tick from `s` takes: holding a complete role, advancing
      from an erased one, deleting a non-empty text, or typing an incomplete one. */
  function PhaseOf(roles: seq<string>, s: State): (p: Phase)
    requires InRange(roles, s)
    ensures p == Hold <==> !s.deleting && s.text == roles[s.index]
    ensures p == Advance <==> s.deleting && s.text == ""
    ensures p == Delete <==> s.deleting && s.text != ""
    ensures p == Type <==> !s.deleting && s.text != roles[s.index]
  {
    if !s.deleting && s.text == roles[s.index] then Hold
    else if s.deleting && s.text == "" then Advance
    else if s.deleting then Delete
    else Type
  }

  /** The state after one tick from `s`. The advance branch sets the flag and
      the index together, as one batched update. */
  function Next(roles: seq<string>, s: State): (r: State)
    requires |roles| > 0 && InRange(roles, s)
    ensures InRange(roles, r)
  {
    match PhaseOf(roles, s)
    case Hold => s.(deleting := true)
    case Advance => s.(index := NextIndex(s.index, |roles|), deleting := false)
    case Delete => s.(text := DropLast(s.text))
    case Type => s.(text := GrowPrefix(roles[s.index], s.text))
  }

  /** The delay a tick from `s` schedules before its update: 2000 ms on hold,
      50 ms while deleting, 100 ms while typing, and 0 for the advance branch,
      which updates at once. */
  function TickDelay(roles: seq<string>, s: State): (ms: nat)
    requires InRange(roles, s)
    ensures ms == match PhaseOf(roles, s)
                  case Hold => 2000
                  case Advance => 0
                  case Delete => 50
                  case Type => 100
  {
    match PhaseOf(roles, s)
    case Hold => PauseTime(s.deleting)
    case Advance => 0
    case Delete => TypingSpeed(s.deleting)
    case Type => TypingSpeed(s.deleting)
  }

  /** The hold branch only runs when not deleting, so its 500 ms alternative is never used. */
  lemma PauseAlwaysFull(roles: seq<string>, s: State)
    requires InRange(roles, s) && PhaseOf(roles, s) == Hold
    ensures TickDelay(roles, s) == 2000
  {
  }

  /** The delays are ordered hold > type > delete > advance. */
  lemma DelayOrder(roles: seq<string>, h: State, t: State, d: State, a: State)
    requires InRange(roles, h) && PhaseOf(roles, h) == Hold
    requires InRange(roles, t) && PhaseOf(roles, t) == Type
    requires InRange(roles, d) && PhaseOf(roles, d) == Delete
    requires InRange(roles, a) && PhaseOf(roles, a) == Advance
    ensures TickDelay(roles, h) > TickDelay(roles, t) > TickDelay(roles, d) > TickDelay(roles, a) == 0
  {
  }

  /** A typing tick shows the prefix of the role one character longer. */
  lemma TypeTick(roles: seq<string>, s: State)
    requires Inv(roles, s) && !s.deleting && s.text != roles[s.index]
    ensures Next(roles, s) == s.(text := roles[s.index][..|s.text| + 1])
    ensures |Next(roles, s).text| == |s.text| + 1
  {
  }

  /** A deleting tick with text removes exactly its last character. */
  lemma DeleteTick(roles: seq<string>, s: State)
    requires InRange(roles, s) && s.deleting && s.text != ""
    ensures Next(roles, s) == s.(text := s.text[..|s.text| - 1])
    ensures |Next(roles, s).text| == |s.text| - 1
  {
  }

  /** The flag is raised exactly from a typing state showing the whole role,
      and that tick changes neither the text nor the index. */
  lemma StartsDeletingExactlyAtHold(roles: seq<string>, s: State)
    requires InRange(roles, s) && !s.deleting
    ensures Next(roles, s).deleting <==> s.text == roles[s.index]
    ensures Next(roles, s).deleting ==> Next(roles, s).text == s.text && Next(roles, s).index == s.index
  {
  }

  /** The flag is cleared exactly when deleting reaches the empty text. */
  lemma StopsDeletingExactlyWhenEmpty(roles: seq<string>, s: State)
    requires InRange(roles, s) && s.deleting
    ensures !Next(roles, s).deleting <==> s.text == ""
  {
  }

  /** The index moves only on the advance branch, to the next role, with the
      text left empty and the flag cleared; every other tick keeps the index. */
  lemma IndexMovesOnlyOnAdvance(roles: seq<string>, s: State)
    requires InRange(roles, s)
    ensures s.deleting && s.text == "" ==> Next(roles, s) == State(NextIndex(s.index, |roles|), "", false)
    ensures !(s.deleting && s.text == "") ==> Next(roles, s).index == s.index
  {
  }

  /** Every tick keeps the text a prefix of the current role, also right after
      an advance, where the text is empty. */
  lemma NextKeepsInv(roles: seq<string>, s: State)
    requires Inv(roles, s)
    ensures Inv(roles, Next(roles, s))
  {
  }

  /** From a reachable state the text length changes by one per character
      step and stays the same on hold and advance. */
  lemma LengthChange(roles: seq<string>, s: State)
    requires Inv(roles, s)
    ensures |Next(roles, s).text| == match PhaseOf(roles, s)
                                      case Type => |s.text| + 1
                                      case Delete => |s.text| - 1
                                      case Hold => |s.text|
                                      case Advance => 0
  {
  }

  /** Every tick from a reachable state changes at least one of the three
      fields, so the effect, which re-runs only when one of them changes,
      always fires again and the cycle never stops by itself. */
  lemma TickChangesState(roles: seq<string>, s: State)
    requires Inv(roles, s)
    ensures Next(roles, s) != s
  {
  }

  /** The animation state of one mounted hero banner. */
  class Cycler {
    const roles: seq<string>
    var index: nat
    var text: string
    var deleting: bool

    ghost predicate Valid()
      reads this
    {
      Inv(roles, Current())
    }

    function Current(): State
      reads this
    {
      State(index, text, deleting)
    }

    constructor (roles: seq<string>)
      requires |roles| > 0
      ensures Valid()
      ensures this.roles == roles && Current() == Init
    {
      this.roles := roles;
      index, text, deleting := 0, "", false;
    }

    /** One run of the effect: returns the scheduled delay and applies the update. */
    method Tick() returns (delay: nat)
      requires Valid()
      modifies this
      ensures Valid()
      ensures Current() == Next(roles, old(Current()))
      ensures delay == TickDelay(roles, old(Current()))
    {
      NextKeepsInv(roles, Current());
      var currentRole := roles[index];
      var typingSpeed := TypingSpeed(deleting);
      var pauseTime := PauseTime(deleting);

      if !deleting && text == currentRole {
        deleting := true;
        return pauseTime;
      }

      if deleting && text == "" {
        deleting, index := false, NextIndex(index, |roles|);
        return 0;
      }

      text := if deleting then DropLast(text) else GrowPrefix(currentRole, text);
      return typingSpeed;
    }
  }
}
