/**
 * `generate_ai_summary` (genepathwaygenerator.py:154-201): the empty case,
 * the prompt lines built from the interactions, and the highlighting of
 * "activates" and "inhibits" in the text the language model returns.
 *
 * Two things the code calls are parameters: `fmt` renders a score as
 * `{score:.2f}` does, and `model` stands for wrapping the prompt lines into
 * the fixed instructions and asking the model, with the reply it gives or
 * the exception it raises.
 */
module AiSummary {
  import opened Strings
  import opened Substitution
  import opened StringDb

  const NoInteractions := "No interactions to summarize."
  const FailurePrefix := "Could not generate summary: "
  const Activates := "activates"
  const Inhibits := "inhibits"
  const Green := Span("green", Activates)
  const Red := Span("red", Inhibits)

  /** `<span style='color:{colour};font-weight:bold'>{word}</span>`, written
      in pieces cut at its punctuation. */
  function Span(colour: string, word: string): string
  {
    "<span" + (" style" + ("='color" + (":" + (colour + (";font" + ("-weight" + (":bold'>" + (word + "</span>"))))))))
  }

  /** The model's `response.text`, or the message of the exception raised
      on the way to it. */
  datatype Reply = Generated(text: string) | Failed(reason: string)

  /** `f"{a} interacts with {b} (confidence {score:.2f})"`. */
  function PromptLine(x: Interaction, fmt: real -> string): string
  {
    x.geneA + " interacts with " + x.geneB + " (confidence " + fmt(x.score) + ")"
  }

  function PromptLines(interactions: seq<Interaction>, fmt: real -> string): seq<string>
  {
    seq(|interactions|, k requires 0 <= k < |interactions| => PromptLine(interactions[k], fmt))
  }

  /** `"\n".join(interaction_lines)`. */
  function PromptText(interactions: seq<Interaction>, fmt: real -> string): string
  {
    Join(PromptLines(interactions, fmt), '\n')
  }

  /** The two replacements, in the order the code makes them. */
  function Highlight(text: string): string
  {
    Replace(Replace(text, Activates, Green), Inhibits, Red)
  }

  function GenerateSummary(interactions: seq<Interaction>, fmt: real -> string, model: string -> Reply): (summary: string)
    ensures interactions == [] ==> summary == NoInteractions
    ensures interactions != [] && model(PromptText(interactions, fmt)).Failed? ==>
      summary == FailurePrefix + model(PromptText(interactions, fmt)).reason
    ensures interactions != [] && model(PromptText(interactions, fmt)).Generated? ==>
      summary == Highlight(model(PromptText(interactions, fmt)).text)
  {
    if interactions == [] then NoInteractions
    else
      match model(PromptText(interactions, fmt))
      case Failed(reason) => FailurePrefix + reason
      case Generated(text) => Highlight(text)
  }

  /** The prompt has one line per interaction, in order, as long as no gene
      name and no rendered score holds a line break. */
  lemma PromptLinesRoundTrip(interactions: seq<Interaction>, fmt: real -> string)
    requires interactions != []
    requires forall k :: 0 <= k < |interactions| ==>
      '\n' !in interactions[k].geneA && '\n' !in interactions[k].geneB && '\n' !in fmt(interactions[k].score)
    ensures |SplitOn(PromptText(interactions, fmt), '\n')| == |interactions|
    ensures forall k :: 0 <= k < |interactions| ==>
      SplitOn(PromptText(interactions, fmt), '\n')[k] == PromptLine(interactions[k], fmt)
  {
    var lines := PromptLines(interactions, fmt);
    forall k | 0 <= k < |lines| ensures '\n' !in lines[k] {
      var x := interactions[k];
      assert lines[k] == x.geneA + " interacts with " + x.geneB + " (confidence " + fmt(x.score) + ")";
    }
    SplitOnJoin(lines, '\n');
  }

  /** Text with neither word in it comes back unchanged. */
  lemma HighlightPlain(text: string)
    requires Absent(text, Activates) && Absent(text, Inhibits)
    ensures Highlight(text) == text
  {
    ReplaceAbsent(text, Activates, Green);
    ReplaceAbsent(text, Inhibits, Red);
  }

  /** A piece of the model's reply: free text, or one of the two words. */
  datatype Fragment = Prose(text: string) | Activation | Inhibition

  /** A fragment as written in the reply, or with either word already
      wrapped in its coloured span. */
  function Render(f: Fragment, activationStyled: bool, inhibitionStyled: bool): (s: string)
    ensures s != [] || (f.Prose? && f.text == [])
  {
    match f
    case Prose(t) => t
    case Activation => if activationStyled then Green else Activates
    case Inhibition => if inhibitionStyled then Red else Inhibits
  }

  function Renders(fs: seq<Fragment>, activationStyled: bool, inhibitionStyled: bool): seq<string>
  {
    seq(|fs|, k requires 0 <= k < |fs| => Render(fs[k], activationStyled, inhibitionStyled))
  }

  function Text(fs: seq<Fragment>, activationStyled: bool, inhibitionStyled: bool): string
  {
    Flatten(Renders(fs, activationStyled, inhibitionStyled))
  }

  /** Free text holds neither word, and no two pieces of free text are
      neighbours (they would be one piece). */
  predicate WellFormed(fs: seq<Fragment>)
  {
    && (forall k :: 0 <= k < |fs| ==> fs[k].Prose? ==> Absent(fs[k].text, Activates) && Absent(fs[k].text, Inhibits))
    && forall k :: 0 <= k < |fs| - 1 ==> !fs[k].Prose? || !fs[k + 1].Prose?
  }

  lemma TextCons(f: Fragment, g: seq<Fragment>, a: bool, i: bool)
    ensures Text([f] + g, a, i) == Render(f, a, i) + Text(g, a, i)
  {
    assert Renders([f] + g, a, i)[1..] == Renders(g, a, i);
  }

  /** The pieces from the `k`-th on: the `k`-th, then the rest. */
  lemma FlattenFrom(cs: seq<string>, k: nat)
    requires k < |cs|
    ensures Flatten(cs[k..]) == cs[k] + Flatten(cs[k + 1..])
  {
    assert cs[k..][1..] == cs[k + 1..];
  }

  /** In the first pass no "activates" runs out of either word. */
  lemma FirstPassLeft(z: string)
    ensures NoStraddle(Activates, z, Activates) && NoStraddle(Inhibits, z, Activates)
  {
    LeftBlocks(Activates, z, Activates);
    LeftBlocks(Inhibits, z, Activates);
  }

  /** In the first pass no "activates" runs into either word. */
  lemma FirstPassRight(x: string, z: string)
    ensures NoStraddle(x, Activates + z, Activates) && NoStraddle(x, Inhibits + z, Activates)
  {
    RightBlocks(x, Activates, z, Activates);
    RightBlocks(x, Inhibits, z, Activates);
  }

  /** In the second pass no "inhibits" runs out of the green span or the word. */
  lemma SecondPassLeft(z: string)
    ensures NoStraddle(Green, z, Inhibits) && NoStraddle(Inhibits, z, Inhibits)
  {
    assert Green[|Green| - 1] == '>';
    LastBlocks(Green, z, Inhibits);
    LeftBlocks(Inhibits, z, Inhibits);
  }

  /** In the second pass no "inhibits" runs into the green span or the word. */
  lemma SecondPassRight(x: string, z: string)
    ensures NoStraddle(x, Green + z, Inhibits) && NoStraddle(x, Inhibits + z, Inhibits)
  {
    assert Green[0] == '<' && Green[1] == 's';
    RightBlocks(x, Green, z, Inhibits);
    RightBlocks(x, Inhibits, z, Inhibits);
  }

  /** No occurrence of "activates" crosses a join of the reply as written. */
  lemma FirstPassApart(fs: seq<Fragment>)
    requires WellFormed(fs)
    ensures forall k :: 0 <= k < |fs| - 1 ==>
      NoStraddle(Renders(fs, false, false)[k], Flatten(Renders(fs, false, false)[k + 1..]), Activates)
  {
    var cs := Renders(fs, false, false);
    forall k | 0 <= k < |fs| - 1 ensures NoStraddle(cs[k], Flatten(cs[k + 1..]), Activates) {
      FlattenFrom(cs, k + 1);
      if fs[k].Prose? {
        FirstPassRight(cs[k], Flatten(cs[k + 2..]));
      } else {
        FirstPassLeft(Flatten(cs[k + 1..]));
      }
    }
  }

  /** No occurrence of "inhibits" crosses a join once "activates" is styled. */
  lemma SecondPassApart(fs: seq<Fragment>)
    requires WellFormed(fs)
    ensures forall k :: 0 <= k < |fs| - 1 ==>
      NoStraddle(Renders(fs, true, false)[k], Flatten(Renders(fs, true, false)[k + 1..]), Inhibits)
  {
    var cs := Renders(fs, true, false);
    forall k | 0 <= k < |fs| - 1 ensures NoStraddle(cs[k], Flatten(cs[k + 1..]), Inhibits) {
      FlattenFrom(cs, k + 1);
      if fs[k].Prose? {
        SecondPassRight(cs[k], Flatten(cs[k + 2..]));
      } else {
        SecondPassLeft(Flatten(cs[k + 1..]));
      }
    }
  }

  lemma ActivatesKeepsInhibits(r: string)
    ensures Replace(Activates, Inhibits, r) == Activates
  {
    assert Activates[..8][0] != Inhibits[0];
    assert Activates[1..][..8][0] != Inhibits[0];
    assert Activates[1..][1..] == "tivates";
  }

  /** The second replacement leaves the green span alone: no piece of it
      holds the word, and the word cannot run across a cut. */
  lemma GreenKeepsInhibits(r: string)
    ensures Replace(Green, Inhibits, r) == Green
  {
    var t := "</span>";
    ActivatesKeepsInhibits(r);
    KeepsJoined(Activates, t, Inhibits, r);
    t := Activates + t;
    KeepsJoined(":bold'>", t, Inhibits, r);
    t := ":bold'>" + t;
    KeepsJoined("-weight", t, Inhibits, r);
    t := "-weight" + t;
    KeepsJoined(";font", t, Inhibits, r);
    t := ";font" + t;
    KeepsJoined("green", t, Inhibits, r);
    t := "green" + t;
    KeepsJoined(":", t, Inhibits, r);
    t := ":" + t;
    KeepsJoined("='color", t, Inhibits, r);
    t := "='color" + t;
    KeepsJoined(" style", t, Inhibits, r);
    t := " style" + t;
    KeepsJoined("<span", t, Inhibits, r);
  }

  /** Every occurrence of either word, and nothing else, comes back wrapped
      in its coloured span; the free text around it is kept. */
  lemma HighlightFragments(fs: seq<Fragment>)
    requires WellFormed(fs)
    ensures Highlight(Text(fs, false, false)) == Text(fs, true, true)
  {
    forall k | 0 <= k < |fs|
      ensures Replace(Render(fs[k], false, false), Activates, Green) == Render(fs[k], true, false)
    {
      match fs[k]
      case Prose(t) => ReplaceAbsent(t, Activates, Green);
      case Activation => ReplaceWhole(Activates, Green);
      case Inhibition =>
    }
    FirstPassApart(fs);
    ReplaceEach(Renders(fs, false, false), Renders(fs, true, false), Activates, Green);
    forall k | 0 <= k < |fs|
      ensures Replace(Render(fs[k], true, false), Inhibits, Red) == Render(fs[k], true, true)
    {
      match fs[k]
      case Prose(t) => ReplaceAbsent(t, Inhibits, Red);
      case Activation => GreenKeepsInhibits(Red);
      case Inhibition => ReplaceWhole(Inhibits, Red);
    }
    SecondPassApart(fs);
    ReplaceEach(Renders(fs, true, false), Renders(fs, true, true), Inhibits, Red);
  }

  /** The reply cut where the replacements find the words: scanning from
      the left, each occurrence of either word is a word of its own, and
      the characters between occurrences are free text. */
  function Fragments(s: string): seq<Fragment>
    decreases |s|
  {
    if s == [] then []
    else if OccursAt(s, Activates, 0) then [Activation] + Fragments(s[|Activates|..])
    else if OccursAt(s, Inhibits, 0) then [Inhibition] + Fragments(s[|Inhibits|..])
    else Extend(s[0], Fragments(s[1..]))
  }

  /** One more character in front of the free text that leads `fs`. */
  function Extend(c: char, fs: seq<Fragment>): seq<Fragment>
  {
    if fs != [] && fs[0].Prose? then [Prose([c] + fs[0].text)] + fs[1..] else [Prose([c])] + fs
  }

  /** `fs` is a well-formed cut of `s`. */
  predicate Cuts(fs: seq<Fragment>, s: string)
  {
    Text(fs, false, false) == s && WellFormed(fs)
  }

  /** Every reply is cut by `Fragments` into free text and the two words. */
  lemma {:induction false} FragmentsCut(s: string)
    ensures Cuts(Fragments(s), s)
    decreases |s|
  {
    if s == [] {
      assert Renders([], false, false) == [];
    } else if OccursAt(s, Activates, 0) {
      FragmentsCut(s[|Activates|..]);
      WordCut(Activation, Fragments(s[|Activates|..]), s, |Activates|);
    } else if OccursAt(s, Inhibits, 0) {
      FragmentsCut(s[|Inhibits|..]);
      WordCut(Inhibition, Fragments(s[|Inhibits|..]), s, |Inhibits|);
    } else {
      FragmentsCut(s[1..]);
      ExtendCut(Fragments(s[1..]), s);
    }
  }

  /** A word written at the front, before a cut of the rest. */
  lemma WordCut(f: Fragment, g: seq<Fragment>, s: string, n: nat)
    requires !f.Prose? && n == |Render(f, false, false)| && n <= |s|
    requires s[..n] == Render(f, false, false) && Cuts(g, s[n..])
    ensures Cuts([f] + g, s)
  {
    TextCons(f, g, false, false);
    assert s == s[..n] + s[n..];
    var fs := [f] + g;
    forall k | 0 < k < |fs| ensures fs[k] == g[k - 1] {
    }
  }

  /** A character that starts neither word, before a cut of the rest. */
  lemma ExtendCut(g: seq<Fragment>, s: string)
    requires s != [] && !OccursAt(s, Activates, 0) && !OccursAt(s, Inhibits, 0)
    requires Cuts(g, s[1..])
    ensures Cuts(Extend(s[0], g), s)
  {
    if g != [] && g[0].Prose? {
      ExtendProse(g, s);
    } else {
      ExtendWord(g, s);
    }
  }

  /** The character joins the free text that leads the rest. */
  lemma ExtendProse(g: seq<Fragment>, s: string)
    requires s != [] && !OccursAt(s, Activates, 0) && !OccursAt(s, Inhibits, 0)
    requires Cuts(g, s[1..]) && g != [] && g[0].Prose?
    ensures Cuts(Extend(s[0], g), s)
  {
    var c, t := s[0], g[0].text;
    TextCons(g[0], g[1..], false, false);
    assert g == [g[0]] + g[1..];
    var rest := Text(g[1..], false, false);
    assert s == [c] + t + rest;
    ProseGrows(c, t, rest, Activates);
    ProseGrows(c, t, rest, Inhibits);
    TextCons(Prose([c] + t), g[1..], false, false);
    var fs := Extend(c, g);
    forall k | 0 < k < |fs| ensures fs[k] == g[k] {
    }
  }

  /** The character is free text of its own, before a word or the end. */
  lemma ExtendWord(g: seq<Fragment>, s: string)
    requires s != [] && Cuts(g, s[1..]) && (g == [] || !g[0].Prose?)
    ensures Cuts(Extend(s[0], g), s)
  {
    var c := s[0];
    TextCons(Prose([c]), g, false, false);
    assert s == [c] + s[1..];
    assert Absent([c], Activates) && Absent([c], Inhibits);
    var fs := Extend(c, g);
    forall k | 0 < k < |fs| ensures fs[k] == g[k - 1] {
    }
  }

  /** Free text stays free of a word when a character that starts no
      occurrence is put in front of it. */
  lemma ProseGrows(c: char, t: string, rest: string, p: string)
    requires p != [] && Absent(t, p) && !OccursAt([c] + t + rest, p, 0)
    ensures Absent([c] + t, p)
  {
    forall i | 0 <= i <= |[c] + t| ensures !OccursAt([c] + t, p, i) {
      if i == 0 {
        if |p| <= |[c] + t| {
          assert ([c] + t + rest)[..|p|] == ([c] + t)[..|p|];
        }
      } else {
        OccursInSuffix([c] + t, p, 1, i - 1);
        assert ([c] + t)[1..] == t;
      }
    }
  }

  /** Highlighting any reply wraps exactly the occurrences `Fragments`
      finds, each in its span, and keeps the text between them. */
  lemma HighlightReply(s: string)
    ensures Text(Fragments(s), false, false) == s
    ensures WellFormed(Fragments(s))
    ensures Highlight(s) == Text(Fragments(s), true, true)
  {
    FragmentsCut(s);
    HighlightFragments(Fragments(s));
  }

  /** The replacement does not look for word boundaries: the tail of
      "deactivates" is highlighted as if it were the word. */
  lemma HighlightInsideWord()
    ensures Highlight("de" + Activates) == "de" + Green
  {
    calc {
      Highlight("de" + Activates);
      Replace(Replace("de" + Activates, Activates, Green), Inhibits, Red);
      { ReplaceInsideWord(Green); }
      Replace("de" + Green, Inhibits, Red);
      { DeKeepsGreen(); }
      "de" + Green;
    }
  }

  lemma DeKeepsGreen()
    ensures Replace("de" + Green, Inhibits, Red) == "de" + Green
  {
    assert Replace("de", Inhibits, Red) == "de";
    GreenKeepsInhibits(Red);
    assert Green[0] == '<';
    KeepsJoined("de", Green, Inhibits, Red);
  }

  lemma ReplaceInsideWord(r: string)
    ensures Replace("de" + Activates, Activates, r) == "de" + r
  {
    var s := "de" + Activates;
    assert s[2..] == Activates && s[..2] == "de";
    assert OccursAt(s, Activates, 2) by {
      assert s[2..2 + |Activates|] == s[2..];
    }
    assert !OccursAt(s, Activates, 0) && !OccursAt(s, Activates, 1) by {
      assert s[0] == 'd' && s[1] == 'e' && Activates[0] == 'a';
      assert s[0..9][0] == s[0] && s[1..10][0] == s[1];
    }
    ReplaceLeftmost(s, Activates, r, 2);
    assert s[11..] == [];
    ReplaceEmpty(Activates, r);
  }
}
