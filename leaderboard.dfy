/**
 * The "Top Sponsors" field of the Discord embed: one line per
 * leaderboard entry, in input order, ranked from 1, or the word
 * "None" when there is nothing to list.
 */
module Leaderboard {
  import JsText

  /** A leaderboard entry: a sponsored tribute's name and its vote count. */
  datatype Entry = Entry(name: string, votes: int)

  /** The em dash between name and votes. */
  const Dash: string := "\U{2014}"

  /** The gem emoji after the vote count. */
  const Gem: string := "\U{1F48E}"

  /** Entry `i` (from 0) as `**{i+1}.** {name} — {votes}💎`. */
  function Line(i: nat, e: Entry): string
  {
    "**" + JsText.ShowNat(i + 1) + ".** " + e.name + " " + Dash + " " + JsText.ShowInt(e.votes) + Gem
  }

  /** `leaderboard.map((l, i) => line)`. */
  function Lines(es: seq<Entry>): seq<string>
  {
    seq(|es|, i requires 0 <= i < |es| => Line(i, es[i]))
  }

  /** `leaderboard.map(...).join("\n") || "None"`: the empty string is falsy. */
  function Text(es: seq<Entry>): string
  {
    var joined := JsText.Join(Lines(es), "\n");
    if joined == "" then "None" else joined
  }

  /** The rank written at the head of line `i` reads back as `i + 1`. */
  lemma LineRank(i: nat, e: Entry)
    ensures Line(i, e)[..2] == "**"
    ensures JsText.ParseNat(JsText.LeadingDigits(Line(i, e)[2..])) == i + 1
  {
    var digits := JsText.ShowNat(i + 1);
    var rest := ".** " + e.name + " " + Dash + " " + JsText.ShowInt(e.votes) + Gem;
    assert Line(i, e) == "**" + (digits + rest);
    assert Line(i, e)[2..] == digits + rest;
    JsText.LeadingDigitsOf(digits, rest);
    JsText.ParseShowNat(i + 1);
  }

  /** Lines at different positions differ, whatever their entries. */
  lemma LinesDistinct(i: nat, j: nat, e: Entry, f: Entry)
    requires i != j
    ensures Line(i, e) != Line(j, f)
  {
    LineRank(i, e);
    LineRank(j, f);
  }

  /** A line holds a newline only if the name does. */
  lemma LineHasNoNewline(i: nat, e: Entry)
    requires '\n' !in e.name
    ensures '\n' !in Line(i, e)
  {
  }

  /** An empty leaderboard reads "None", and only an empty one does. */
  lemma TextNone(es: seq<Entry>)
    ensures Text(es) == "None" <==> es == []
  {
  }

  /**
   * With newline-free names, the text is exactly one line per entry, in
   * input order, line `i` ranking entry `i` as number `i + 1`.
   */
  lemma TextLines(es: seq<Entry>)
    requires es != []
    requires forall i :: 0 <= i < |es| ==> '\n' !in es[i].name
    ensures JsText.Split(Text(es), '\n') == Lines(es)
    ensures JsText.Count(Text(es), '\n') == |es| - 1
  {
    TextNone(es);
    forall i | 0 <= i < |es|
      ensures '\n' !in Lines(es)[i]
    {
      LineHasNoNewline(i, es[i]);
    }
    JsText.SplitJoin(Lines(es), '\n');
    JsText.SplitCount(Text(es), '\n');
  }
}
