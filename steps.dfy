/** The fixed, read-only table of wizard steps (`steps` in js/arabic.js). */
module Steps {
  import opened AnswerSet

  /** One selectable option: its display title, subtitle and decorative tag. */
  datatype Choice = Choice(title: string, sub: string, tag: string)

  /** One question: the answer key it fills, its heading, its hint and its ordered options. */
  datatype Step = Step(key: Key, title: string, hint: string, options: seq<Choice>)

  const STEPS: seq<Step> := [
    Step(Goal, "What do you want to practice?", "Choose one to continue.", [
      Choice("Conversation", "Speak naturally with gentle corrections", "⭐ Most popular"),
      Choice("Vocabulary", "Build daily words and phrases", "📘"),
      Choice("Grammar", "Fix mistakes and learn patterns", "✅"),
      Choice("Travel Arabic", "Useful phrases for common situations", "✈️")
    ]),
    Step(Level, "Choose your level", "This helps the AI adjust difficulty.", [
      Choice("Beginner", "Basic words + simple sentences", "A1"),
      Choice("Intermediate", "Daily chats + corrections", "B1"),
      Choice("Advanced", "Fluency + roleplay scenarios", "C1")
    ]),
    Step(Style, "How do you prefer to learn?", "Pick a chat style.", [
      Choice("Roleplay", "Act out real situations", "🎭"),
      Choice("Tutor mode", "Explain, then practice", "🧑‍🏫"),
      Choice("Quick drills", "Short, fast exercises", "⚡"),
      Choice("Gentle corrections", "Fix mistakes kindly", "🌿")
    ])
  ]

  /** No two options of one step share a title. */
  predicate DistinctTitles(opts: seq<Choice>)
  {
    forall a, b :: 0 <= a < b < |opts| ==> opts[a].title != opts[b].title
  }

  /**
   * The table has three steps, one per answer key in the order goal, level, style; every
   * step offers at least one option, and every option title is non-empty and unique in its step.
   */
  lemma TableWellFormed()
    ensures |STEPS| == 3
    ensures STEPS[0].key == Goal && STEPS[1].key == Level && STEPS[2].key == Style
    ensures forall i :: 0 <= i < |STEPS| ==> |STEPS[i].options| > 0 && DistinctTitles(STEPS[i].options)
    ensures forall i, j :: 0 <= i < |STEPS| && 0 <= j < |STEPS[i].options| ==> STEPS[i].options[j].title != ""
  {
  }
}
