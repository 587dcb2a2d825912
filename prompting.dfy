/**
 * Turning the selected hits into the context block and the prompt handed to
 * the text generator.
 */
module Prompting {
  import opened Wrappers
  import opened Text
  import opened Retrieval

  /** Every hit names a chunk that exists. */
  predicate ValidIds(hits: seq<Hit>, chunks: seq<string>) {
    forall i :: 0 <= i < |hits| ==> hits[i].id < |chunks|
  }

  const EntrySeparator: string := "\n\n"

  /**
   * One context entry, `f"[Score {s:.2f}] {chunks[i]}"`; `scoreLabel` stands for
   * the two-decimal rendering of the score.
   */
  function Entry(scoreLabel: real -> string, chunks: seq<string>, h: Hit): (r: string)
    requires h.id < |chunks|
    ensures |r| == |"[Score "| + |scoreLabel(h.score)| + |"] "| + |chunks[h.id]|
    ensures r[..|"[Score "|] == "[Score "
    ensures r[|r| - |chunks[h.id]|..] == chunks[h.id]
  {
    "[Score " + scoreLabel(h.score) + "] " + chunks[h.id]
  }

  /** The entries of the selected hits, in selection order. */
  function Entries(scoreLabel: real -> string, chunks: seq<string>, selected: seq<Hit>): (r: seq<string>)
    requires ValidIds(selected, chunks)
    ensures |r| == |selected|
    ensures forall i :: 0 <= i < |selected| ==> r[i] == Entry(scoreLabel, chunks, selected[i])
  {
    seq(|selected|, i requires 0 <= i < |selected| => Entry(scoreLabel, chunks, selected[i]))
  }

  /**
   * The context block: the entries joined by blank lines. Its layout, entry
   * by entry, is stated by `ContextLayout`.
   */
  function Context(scoreLabel: real -> string, chunks: seq<string>, selected: seq<Hit>): (r: string)
    requires ValidIds(selected, chunks)
    ensures |r| == TotalLength(Entries(scoreLabel, chunks, selected))
                   + SeparatorCount(|selected|) * |EntrySeparator|
    ensures |selected| == 1 ==> r == Entry(scoreLabel, chunks, selected[0])
  {
    Join(EntrySeparator, Entries(scoreLabel, chunks, selected))
  }

  /**
   * The layout of the context block: entry `i` (the score label and the text
   * of chunk `selected[i].id`) sits verbatim at its offset, one blank line
   * follows every entry but the last, and the length counts exactly
   * `|selected| - 1` separators.
   */
  lemma ContextLayout(scoreLabel: real -> string, chunks: seq<string>, selected: seq<Hit>, i: nat)
    requires ValidIds(selected, chunks) && i < |selected|
    ensures var c, es := Context(scoreLabel, chunks, selected), Entries(scoreLabel, chunks, selected);
      && |c| == TotalLength(es) + SeparatorCount(|selected|) * |EntrySeparator|
      && Offset(EntrySeparator, es, i) + |es[i]| <= |c|
      && c[Offset(EntrySeparator, es, i)..Offset(EntrySeparator, es, i) + |es[i]|]
         == "[Score " + scoreLabel(selected[i].score) + "] " + chunks[selected[i].id]
      && (i + 1 < |selected| ==>
           Offset(EntrySeparator, es, i) + |es[i]| + 2 <= |c| &&
           c[Offset(EntrySeparator, es, i) + |es[i]|..Offset(EntrySeparator, es, i) + |es[i]| + 2] == "\n\n")
  {
    JoinLayout(EntrySeparator, Entries(scoreLabel, chunks, selected), i);
  }

  /** A selection of one hit gives a context that is exactly its entry. */
  lemma ContextOfOne(scoreLabel: real -> string, chunks: seq<string>, h: Hit)
    requires h.id < |chunks|
    ensures Context(scoreLabel, chunks, [h]) == "[Score " + scoreLabel(h.score) + "] " + chunks[h.id]
  {
    assert Entries(scoreLabel, chunks, [h]) == [Entry(scoreLabel, chunks, h)];
  }

  /** A non-empty selection gives a context that opens with its first entry. */
  lemma ContextStartsWithFirstEntry(scoreLabel: real -> string, chunks: seq<string>, selected: seq<Hit>)
    requires ValidIds(selected, chunks) && |selected| > 0
    ensures var e := Entry(scoreLabel, chunks, selected[0]);
      |e| <= |Context(scoreLabel, chunks, selected)| && Context(scoreLabel, chunks, selected)[..|e|] == e
  {
    var es := Entries(scoreLabel, chunks, selected);
    JoinLayout(EntrySeparator, es, 0);
    assert es[..0] == [];
  }

  // ---------------------------------------------------------------------
  // The prompt
  // ---------------------------------------------------------------------

  /** The fixed parts of the prompt template, in French as in the source. */
  const QuestionHeader: string := "Question ICPE/VRD: "
  const ContextHeader: string := "\nContexte:\n"
  const Instruction: string := "\nR\U{e9}ponds de fa\U{e7}on concise en citant les articles."

  /**
   * `f"Question ICPE/VRD: {user_input}\nContexte:\n{context}\nRéponds …"`:
   * the query and the context appear verbatim between the template's fixed
   * parts, so reading the prompt back gives both.
   */
  function Prompt(query: string, context: string): (p: string)
    ensures ParsePrompt(p, |query|) == Some((query, context))
  {
    var p := QuestionHeader + query + ContextHeader + context + Instruction;
    var a := |QuestionHeader|;
    var b := a + |query|;
    var c := b + |ContextHeader|;
    assert p[..a] == QuestionHeader;
    assert p[a..b] == query;
    assert p[b..c] == ContextHeader;
    assert p[c..|p| - |Instruction|] == context;
    assert p[|p| - |Instruction|..] == Instruction;
    p
  }

  /**
   * Reads a prompt back, given the length of its query: the query and the
   * context, or `None` when `p` does not have the template's fixed parts
   * where they belong.
   */
  function ParsePrompt(p: string, queryLength: nat): (r: Option<(string, string)>)
    ensures r.Some? ==> |r.value.0| == queryLength
  {
    var a := |QuestionHeader|;
    var b := a + queryLength;
    var c := b + |ContextHeader|;
    if c + |Instruction| <= |p|
       && p[..a] == QuestionHeader
       && p[b..c] == ContextHeader
       && p[|p| - |Instruction|..] == Instruction
    then Some((p[a..b], p[c..|p| - |Instruction|]))
    else None
  }

  /** Whatever reads back as a query and a context is the prompt built from them. */
  lemma ParsePromptSound(p: string, queryLength: nat)
    requires ParsePrompt(p, queryLength).Some?
    ensures Prompt(ParsePrompt(p, queryLength).value.0, ParsePrompt(p, queryLength).value.1) == p
  {
    var a := |QuestionHeader|;
    var b := a + queryLength;
    var c := b + |ContextHeader|;
    var e := |p| - |Instruction|;
    assert p[..c] == p[..a] + p[a..b] + p[b..c];
    assert p[..e] == p[..c] + p[c..e];
    assert p == p[..e] + p[e..];
  }

  /** Two prompts with queries of the same length are equal only when query and context are. */
  lemma PromptInjective(q1: string, c1: string, q2: string, c2: string)
    requires |q1| == |q2| && Prompt(q1, c1) == Prompt(q2, c2)
    ensures q1 == q2 && c1 == c2
  {
    // both prompts read back, by Prompt's contract, with the same query length
  }
}
