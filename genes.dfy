/**
 * The gene-input normaliser of the pathway generator and the guards its
 * caller applies before querying the interaction database
 * (genepathwaygenerator.py:212-217).
 */
module GeneInput {
  import opened Wrappers
  import opened Strings
  import opened StringOrder
  import opened Substitution

  /** A character that separates gene symbols in the pasted text. */
  predicate IsDelimiter(c: char)
  {
    c == ',' || IsSpace(c)
  }

  /** What the normaliser promises of each gene symbol it returns. */
  predicate IsGeneSymbol(g: string)
  {
    g != [] && NoSpace(g) && NoLower(g) && ',' !in g
  }

  /** `genes_input.replace(",", " ")`. */
  function Spaced(input: string): string
  {
    Replace(input, ",", " ")
  }

  /** One token as stored: `g.upper().strip()`. */
  function Canonical(g: string): string
  {
    Strip(Upper(g))
  }

  /** The generator `(g.upper().strip() for g in tokens if g.strip())`. */
  function CanonicalTokens(tokens: seq<string>): seq<string>
  {
    if tokens == [] then []
    else (if Strip(tokens[0]) != [] then [Canonical(tokens[0])] else []) + CanonicalTokens(tokens[1..])
  }

  /** The generator yields the canonical form of each token that is not blank. */
  lemma {:induction false} CanonicalTokensMembers(tokens: seq<string>, x: string)
    ensures x in CanonicalTokens(tokens) <==>
      exists g :: g in tokens && Strip(g) != [] && x == Canonical(g)
  {
    if tokens != [] {
      var t0, rest := tokens[0], tokens[1..];
      CanonicalTokensMembers(rest, x);
      var head := if Strip(t0) != [] then [Canonical(t0)] else [];
      assert CanonicalTokens(tokens) == head + CanonicalTokens(rest);
      if x in CanonicalTokens(tokens) && x !in head {
        var g :| g in rest && Strip(g) != [] && x == Canonical(g);
        assert g in tokens;
      }
      if exists g :: g in tokens && Strip(g) != [] && x == Canonical(g) {
        var g :| g in tokens && Strip(g) != [] && x == Canonical(g);
        assert g == t0 || g in rest;
      }
    }
  }

  /** After commas become spaces there is no comma left. */
  lemma SpacedChars(input: string)
    ensures |Spaced(input)| == |input|
    ensures forall k :: 0 <= k < |input| ==> (IsSpace(Spaced(input)[k]) <==> IsDelimiter(input[k]))
    ensures ',' !in Spaced(input)
    ensures forall k :: 0 <= k < |input| && input[k] != ',' ==> Spaced(input)[k] == input[k]
  {
    ReplaceChar(input, ',', ' ');
  }

  /** A token of the comma-free text becomes a well-formed gene symbol. */
  lemma CanonicalOfToken(spaced: string, g: string)
    requires ',' !in spaced && g in Split(spaced)
    ensures Strip(g) == g != [] && Canonical(g) == Upper(g)
    ensures IsGeneSymbol(Canonical(g))
  {
    assert ',' !in g by {
      if ',' in g {
        SplitChars(spaced, g, ',');
      }
    }
    assert g != [] && NoSpace(g);
    StripNoSpace(g);
    var u := Upper(g);
    UpperChars(g);
    assert NoSpace(u);
    StripNoSpace(u);
    UpperNoComma(g);
    assert Canonical(g) == u;
    assert IsGeneSymbol(u);
  }

  /** Every symbol the generator yields for the input is well formed. */
  lemma CanonicalTokensOfInput(input: string)
    ensures forall y :: y in CanonicalTokens(Split(Spaced(input))) ==> IsGeneSymbol(y)
  {
    var spaced := Spaced(input);
    var tokens := Split(spaced);
    SpacedChars(input);
    forall y | y in CanonicalTokens(tokens) ensures IsGeneSymbol(y) {
      CanonicalTokensMembers(tokens, y);
      var g :| g in tokens && Strip(g) != [] && y == Canonical(g);
      CanonicalOfToken(spaced, g);
    }
  }

  /**
   * `sorted(set(g.upper().strip() for g in genes_input.replace(",", " ").split() if g.strip()))`:
   * the distinct upper-cased gene symbols of the input, ascending.
   */
  function Normalize(input: string): (genes: seq<string>)
    ensures StrictlySorted(genes)
    ensures forall k :: 0 <= k < |genes| ==> IsGeneSymbol(genes[k])
  {
    CanonicalTokensOfInput(input);
    SortedSet(CanonicalTokens(Split(Spaced(input))))
  }

  /** `input[i..j]` is a maximal non-empty run of characters that are
      neither commas nor whitespace: one gene symbol as the user typed it. */
  ghost predicate IsGeneToken(input: string, i: int, j: int)
  {
    && 0 <= i < j <= |input|
    && (forall k :: i <= k < j ==> !IsDelimiter(input[k]))
    && (i == 0 || IsDelimiter(input[i - 1]))
    && (j == |input| || IsDelimiter(input[j]))
  }

  lemma GeneTokenIsToken(input: string, i: int, j: int)
    ensures IsGeneToken(input, i, j) <==> IsToken(Spaced(input), i, j)
    ensures IsGeneToken(input, i, j) ==> Spaced(input)[i..j] == input[i..j]
  {
    SpacedChars(input);
  }

  /** The normalised list holds exactly the upper-cased gene tokens of the
      input, whatever mix of commas, spaces and newlines separates them. */
  lemma NormalizeTokens(input: string, x: string)
    ensures x in Normalize(input) <==>
      exists i, j :: IsGeneToken(input, i, j) && x == Upper(input[i..j])
  {
    var spaced := Spaced(input);
    var tokens := Split(spaced);
    SpacedChars(input);
    CanonicalTokensMembers(tokens, x);
    if x in Normalize(input) {
      var g :| g in tokens && Strip(g) != [] && x == Canonical(g);
      CanonicalOfToken(spaced, g);
      SplitTokens(spaced, g);
      var i, j :| IsToken(spaced, i, j) && g == spaced[i..j];
      GeneTokenIsToken(input, i, j);
    }
    if exists i, j :: IsGeneToken(input, i, j) && x == Upper(input[i..j]) {
      var i, j :| IsGeneToken(input, i, j) && x == Upper(input[i..j]);
      GeneTokenIsToken(input, i, j);
      SplitTokens(spaced, spaced[i..j]);
      var g := spaced[i..j];
      CanonicalOfToken(spaced, g);
    }
  }

  /** Normalising a list the normaliser produced, pasted back space-separated,
      gives the same list. */
  lemma {:induction false} NormalizeJoined(genes: seq<string>)
    requires StrictlySorted(genes)
    requires forall k :: 0 <= k < |genes| ==> IsGeneSymbol(genes[k])
    ensures Normalize(Join(genes, ' ')) == genes
  {
    var text := Join(genes, ' ');
    if ',' in text {
      JoinChars(genes, ' ', ',');
    }
    SpacedChars(text);
    assert Spaced(text) == text;
    SplitJoin(genes);
    forall k | 0 <= k < |genes| ensures Strip(genes[k]) == genes[k] && Canonical(genes[k]) == genes[k] {
      UpperChars(genes[k]);
      StripSpaces(genes[k]);
    }
    var keys := CanonicalTokens(genes);
    forall y ensures y in keys <==> y in genes {
      CanonicalTokensMembers(genes, y);
    }
    SortedUnique(SortedSet(keys), genes);
  }

  /** Why the caller stops before querying the database. */
  datatype InputError =
    | NoInput       // "Please enter gene symbols."
    | TooFewGenes   // "Enter at least two genes."

  /** Nothing but whitespace. */
  predicate Blank(s: string)
  {
    forall k :: 0 <= k < |s| ==> IsSpace(s[k])
  }

  /** The guards at genepathwaygenerator.py:212-217 around the normaliser. */
  function ParseGenes(input: string): (r: Result<seq<string>, InputError>)
    ensures r.Err? && r.error == NoInput <==> Blank(input)
    ensures r.Err? && r.error == TooFewGenes <==> !Blank(input) && |Normalize(input)| < 2
    ensures r.Ok? ==> r.value == Normalize(input) && |r.value| >= 2
  {
    assert Strip(input) == [] <==> Blank(input) by {
      StripSpaces(input);
    }
    if Strip(input) == [] then Err(NoInput)
    else
      var genes := Normalize(input);
      if |genes| < 2 then Err(TooFewGenes) else Ok(genes)
  }
}
