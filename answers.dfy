/**
 * The answer record of the onboarding wizard (the `state` object of js/arabic.js):
 * three fixed keys, each holding an option title or nothing, and the start-up merge
 * that copies a persisted record over it.
 */
module AnswerSet {
  import opened Wrappers

  /** The three keys of the answer record. */
  datatype Key = Goal | Level | Style

  /** `null` in the source is `None` here. */
  datatype Answers = Answers(goal: Option<string>, level: Option<string>, style: Option<string>)
  {
    /** `state[key]` */
    function Get(k: Key): Option<string>
    {
      match k
      case Goal => goal
      case Level => level
      case Style => style
    }

    /** `state[key] = v`: the key now holds `v` and no other key changes. */
    function Set(k: Key, v: string): (r: Answers)
      ensures r.Get(k) == Some(v)
      ensures forall k' :: k' != k ==> r.Get(k') == Get(k')
    {
      match k
      case Goal => this.(goal := Some(v))
      case Level => this.(level := Some(v))
      case Style => this.(style := Some(v))
    }
  }

  /** JavaScript truthiness of a value that is either null or a string: present and non-empty. */
  predicate Truthy(v: Option<string>)
  {
    v.Some? && v.value != ""
  }

  /** The record the page starts with: `goal` is "Conversation", the other two are null. */
  const DEFAULT_ANSWERS: Answers := Answers(Some("Conversation"), None, None)

  /** No key holds the empty string. */
  predicate NoBlank(s: Answers)
  {
    forall k :: s.Get(k) != Some("")
  }

  /** The shape every record the wizard can hold has: a goal, and no blank answer. */
  predicate WellFormed(s: Answers)
  {
    Truthy(s.goal) && NoBlank(s)
  }

  /** One field of the merge: the persisted value wins only when it is truthy. */
  function Overlay(prior: Option<string>, persisted: Option<string>): Option<string>
  {
    if Truthy(persisted) then persisted else prior
  }

  /**
   * The merge `loadState` performs on an already-parsed record. `None` stands for every
   * case in which the source returns without touching `state`: nothing stored, a parse
   * error, or a parsed value that is not an object.
   */
  function Merge(s: Answers, parsed: Option<Answers>): (r: Answers)
    ensures forall k :: r.Get(k) ==
                        if parsed.Some? && Truthy(parsed.value.Get(k)) then parsed.value.Get(k) else s.Get(k)
  {
    match parsed
    case None => s
    case Some(p) => Answers(Overlay(s.goal, p.goal), Overlay(s.level, p.level), Overlay(s.style, p.style))
  }

  /** The merge never introduces a blank answer and never loses a goal. */
  lemma MergePreservesWellFormed(s: Answers, parsed: Option<Answers>)
    requires WellFormed(s)
    ensures WellFormed(Merge(s, parsed))
  {
  }

  /** `goal` keeps its default "Conversation" unless the persisted record carries a truthy goal. */
  lemma DefaultGoalUnlessOverridden(parsed: Option<Answers>)
    ensures Merge(DEFAULT_ANSWERS, parsed).goal ==
      if parsed.Some? && Truthy(parsed.value.goal) then parsed.value.goal else Some("Conversation")
  {
  }

  /** Loading the same record twice is the same as loading it once. */
  lemma MergeIdempotent(s: Answers, parsed: Option<Answers>)
    ensures Merge(Merge(s, parsed), parsed) == Merge(s, parsed)
  {
  }

  /**
   * What a later start-up restores from a snapshot of a well-formed record (a record
   * serialised by `saveState` comes back field for field; null fields stay at their default
   * because the default's null fields are null too, and the goal is always overridden).
   */
  lemma {:induction false} RestoreSnapshot(s: Answers)
    requires WellFormed(s)
    ensures Merge(DEFAULT_ANSWERS, Some(s)) == s
  {
    var r := Merge(DEFAULT_ANSWERS, Some(s));
    assert r.goal == s.goal;
    assert s.level != Some("") by { assert s.Get(Level) != Some(""); }
    assert s.style != Some("") by { assert s.Get(Style) != Some(""); }
  }
}
