# Gene Pathway Generator — verified model of its core

The Gene Pathway Generator is a small Streamlit page. A user pastes gene
symbols. The page normalises them and asks the STRING protein-interaction
database (human, NCBI taxon 9606) for interactions among them. It keeps the
interactions whose confidence reaches a threshold. It then draws them as a
network and asks a language model for a short summary, in which the words
"activates" and "inhibits" are highlighted.

This Dafny project models the four parts of that page that carry its logic,
all in `genepathwaygenerator.py`:

- **Gene-input normaliser** and the two guards around it (`genes.dfy`, lines 212-217).
  `sorted(set(g.upper().strip() for g in text.replace(",", " ").split() if g.strip()))`
  is modelled over the Python `str` operations it uses (`strings.dfy`, `replace.dfy`).
  The `sorted(set(...))` step is in `order.dfy`.
- **`get_gene_interactions`** (`stringdb.dfy`, lines 44-76): the request it sends, how each
  failure ends, and the filter loop. That loop is an imperative method proved against
  a recursive specification function.
- **Node and edge construction** of `create_interactive_network` (`network.dfy`, lines 89-110).
  It is a class whose two lists the build method extends, one loop per list.
- **`generate_ai_summary`** (`summary.dfy`, lines 154-201): the empty case, the prompt
  lines, the failure message and the two highlighting replacements.

Everything outside the program is a parameter:

- the HTTP exchange with STRING is `service: Request -> Response`;
- the language-model call is `model: string -> Reply`;
- the `{score:.2f}` rendering is `fmt: real -> string`.

Behaviours of the code that are easy to misread:

- The empty-summary message is `"No interactions to summarize."`, with its final period.
- A record that passes the score test but lacks `preferredName_A` or `preferredName_B`
  makes `interaction["..."]` raise `KeyError`. That is not a `RequestException`, so it
  escapes `get_gene_interactions`; the model returns `Raised(key)` for it. A record below
  the threshold is skipped before its names are read, so a missing name there raises
  nothing (`StringDb.FilterRaises`).
- A body that is not JSON makes `response.json()` raise `requests.exceptions.JSONDecodeError`.
  That is a `RequestException`, so the function shows a network error and returns `[]`.
- The highlighting does not look for word boundaries: `"deactivates"` becomes
  `"de" + <green span>` (`AiSummary.HighlightInsideWord`), and so does every
  occurrence inside a longer word (`AiSummary.HighlightReply`).
  This is what plain substring replacement does, and the model records it as
  behaviour rather than as a defect.

## Model

| member | source | states |
|---|---|---|
| Strings.UpperChars | genepathwaygenerator.py:215 | `upper()` leaves no lower-case ASCII letter. It keeps whitespace and commas at their positions. It changes nothing in a string that has no lower case. |
| Strings.StripSpaces | genepathwaygenerator.py:212 | `strip()` returns the empty string exactly when the text is all whitespace (the `not genes_input.strip()` guard). It never leaves whitespace at either end, and it leaves a string without whitespace unchanged. |
| Strings.Split | genepathwaygenerator.py:215 | Every piece `split()` returns is non-empty and holds no whitespace. |
| Strings.SplitTokens | genepathwaygenerator.py:215 | A string is a piece of `split()` exactly when it is a maximal whitespace-free run of the text. |
| Strings.SplitJoin | genepathwaygenerator.py:215 | Splitting a space-joined list of non-empty whitespace-free pieces gives the list back. |
| Strings.JoinSplitOn | genepathwaygenerator.py:50 | Joining the pieces of `s.split(sep)` with `sep` gives `s` back. |
| Strings.SplitOnJoin | genepathwaygenerator.py:50 | Splitting `sep.join(xs)` at `sep` gives `xs` back when no piece holds `sep`. |
| StringOrder.LessTrichotomy | genepathwaygenerator.py:215 | Python string comparison is total and asymmetric on distinct strings. |
| StringOrder.LessTransitive | genepathwaygenerator.py:215 | Python string comparison is transitive. |
| StringOrder.SortedSet | genepathwaygenerator.py:215 | `sorted(set(xs))` is strictly ascending and holds exactly the elements of `xs`. |
| StringOrder.SortedUnique | genepathwaygenerator.py:215 | Two strictly ascending lists with the same elements are equal, so the result of `sorted(set(...))` is determined by its elements. |
| Substitution.ReplaceLeftmost | genepathwaygenerator.py:192-197 | `str.replace` replaces the leftmost occurrence first and continues scanning right after it. |
| Substitution.ReplaceAbsent | genepathwaygenerator.py:192-197 | `str.replace` leaves text without the pattern unchanged. |
| Substitution.ReplaceConcat | genepathwaygenerator.py:192-197 | Replacing in `a + b` replaces in `a` and in `b` separately when no occurrence straddles the join. |
| Substitution.ReplaceChar | genepathwaygenerator.py:215 | `replace(",", " ")` maps each character on its own: commas become spaces and nothing else changes. |
| GeneInput.CanonicalTokensMembers | genepathwaygenerator.py:215 | The generator yields `g.upper().strip()` for exactly the tokens `g` that are not blank. |
| GeneInput.Normalize | genepathwaygenerator.py:215 | The normalised list is strictly ascending, so it has no duplicates. Every entry is a non-empty symbol without whitespace, commas or lower-case letters. |
| GeneInput.NormalizeTokens | genepathwaygenerator.py:215 | A symbol is in the list exactly when it is the upper-cased form of a maximal comma- and whitespace-free run of the pasted text. |
| GeneInput.NormalizeJoined | genepathwaygenerator.py:215 | Normalising a normalised list pasted back space-separated gives the same list (idempotence). |
| GeneInput.ParseGenes | genepathwaygenerator.py:212-217 | Returns "Please enter gene symbols." exactly for blank input. Returns "Enter at least two genes." exactly when non-blank input yields fewer than two symbols. Otherwise returns the normalised list, which has at least two genes. |
| StringDb.FetchOutcome | genepathwaygenerator.py:44-76 | Fewer than two genes give `[]` with no alert. A transport failure gives `[]` with a network alert carrying its reason. A status other than 200 gives `[]` with an HTTP alert carrying the status. A body that is not JSON gives `[]` with a network alert. On a list of records the call raises exactly when the filter raises, and otherwise returns the filter's edges with no alert. Every returned edge reaches the threshold and joins two requested genes. |
| StringDb.Filter | genepathwaygenerator.py:63-72 | The loop collects at most one edge per record, and the only keys it can raise on are `preferredName_A` and `preferredName_B`. |
| StringDb.GetGeneInteractions | genepathwaygenerator.py:44-76 | Sends no request for fewer than two genes. Otherwise it sends exactly one GET, with the identifiers joined by `\r`, species 9606, caller identity `streamlit-app` and timeout 30. Its loop ends as the filter specification does, including the `KeyError` exit. |
| StringDb.FilterSound | genepathwaygenerator.py:64-71 | Every collected edge has score at least the threshold and both names among the genes. |
| StringDb.FilterSelects | genepathwaygenerator.py:64-71 | The collected edges are exactly the qualifying records, one edge per record, in response order, with the names and scores of the record (missing score read as 0.0). |
| StringDb.FilterRaises | genepathwaygenerator.py:65-69 | The loop raises `KeyError` exactly when some record passes the score test but lacks a gene name. |
| StringDb.FilterErrPersists | genepathwaygenerator.py:64-72 | Once a lookup has raised, the records after it do not change the outcome. |
| StringDb.IdentifiersRoundTrip | genepathwaygenerator.py:50 | Splitting the `identifiers` parameter at carriage returns gives the gene list back. |
| StringDb.FilterExample | genepathwaygenerator.py:64-71 | On genes BRAF, EGFR, KRAS at threshold 0.7 only (EGFR, KRAS, 0.9) survives. (KRAS, BRAF, 0.5) is below the threshold, and (BRAF, TP53, 0.95) names a gene that was not asked for. |
| PathwayNetwork.GeneNodes | genepathwaygenerator.py:94-100 | One node per gene, in order. Each node has the gene as its id and label, colour `pastel_colors[i % 7]` and size 24. |
| PathwayNetwork.InteractionEdges | genepathwaygenerator.py:102-110 | One edge per interaction, in order, from gene A to gene B. Width is `1 + 2·score`, which is at least 1 for a non-negative score. The title shows the confidence only when labels are on. Colour is `#9e9e9e`. |
| PathwayNetwork.CreateInteractiveNetwork | genepathwaygenerator.py:79-110 | Builds a fresh network whose node list and edge list are exactly the two lists above. |
| PathwayNetwork.Network.AddNode | genepathwaygenerator.py:95-100 | Appends one node and leaves the edges unchanged. |
| PathwayNetwork.Network.AddEdge | genepathwaygenerator.py:104-110 | Appends one edge and leaves the nodes unchanged. |
| PathwayNetwork.ColorsCycle | genepathwaygenerator.py:89-98 | Two genes get the same colour exactly when their positions are congruent modulo 7. |
| PathwayNetwork.PaletteDistinct | genepathwaygenerator.py:89-92 | The seven pastel colours are pairwise distinct. |
| PathwayNetwork.EdgesJoinNodes | genepathwaygenerator.py:70-71 | For the edges the fetcher returns, every edge's endpoints are ids of nodes of the graph, so the library is never asked to link an absent node. |
| AiSummary.GenerateSummary | genepathwaygenerator.py:154-201 | No interactions give "No interactions to summarize.". A failed call gives "Could not generate summary: " followed by the reason. A reply gives its text with both words highlighted. |
| AiSummary.PromptLinesRoundTrip | genepathwaygenerator.py:158-159 | The prompt has one line per interaction, in order, each "A interacts with B (confidence X)", as long as no name or score contains a line break. |
| AiSummary.HighlightPlain | genepathwaygenerator.py:192-197 | Text containing neither word is returned unchanged. |
| AiSummary.GreenKeepsInhibits | genepathwaygenerator.py:192-197 | The second replacement leaves the green span alone, so the first replacement's markup survives. |
| AiSummary.HighlightFragments | genepathwaygenerator.py:192-197 | For text cut into free text holding neither word and occurrences of the two words, with no two pieces of free text side by side, every occurrence (and nothing else) is wrapped in its span. "activates" gets green and "inhibits" gets red; the free text is kept. No occurrence can run across a cut in either pass. |
| AiSummary.HighlightReply | genepathwaygenerator.py:192-197 | Every reply, whatever it holds, is such a cut text: `Fragments` cuts it at the occurrences the left-to-right scan finds, and highlighting the reply gives exactly that cut with each occurrence wrapped in its span. This includes occurrences inside longer words and at either end of the reply. |
| AiSummary.HighlightInsideWord | genepathwaygenerator.py:192-194 | The replacement ignores word boundaries: "deactivates" becomes "de" followed by the green span. |

## Left out

- The Streamlit page itself: title, slider, checkbox, spinner, messages, the table view, the CSV download and the HTML embedding. The two guard messages are `GeneInput.InputError`, and the fetcher's `st.error` calls are `StringDb.Alert`.
- `@st.cache_data(ttl=3600)` (line 43) is left out: the model treats every call as a fresh request to a fixed `service`. The program caches the `[]` returned after an HTTP error or a network failure too, so for up to an hour the same genes and threshold get that `[]` back without a new request, even when STRING would answer by then.
- The HTTP exchange is the `service` parameter. Its timeouts, retries and connection details are outside the model. A JSON body that is not a list of objects, or a `score` that is not a number, is not modelled: the records arrive already decoded, with missing fields as `None`.
- The model name, the fixed instruction template and the Gemini client are inside the `model` parameter. The prompt modelled is the list of interaction lines the template embeds.
- The `{score:.2f}` rendering of the prompt lines is the `fmt` parameter, because decimal rounding of binary floats is not modelled.
- `PathwayNetwork.InteractionEdges`: the edge title `f"Confidence: {score:.2f}"` (line 103) is modelled as `ConfidenceTitle(score)`. It keeps the score and drops both the text "Confidence: " and the two-decimal rendering.
- pyvis `add_node` skips a node id it already has. The model does not: it adds one node per gene, which is the same because the normalised gene list has no duplicates.
- Scores and edge widths are exact reals; floating-point rounding is not modelled.
- `Strings.Upper` models `str.upper` for ASCII letters only. Non-ASCII case mappings, some of which change the length (such as `ß` to `SS`), are not modelled.
- `Substitution.Replace` requires a non-empty pattern. The program only replaces `","`, `"activates"` and `"inhibits"`.
- The pyvis graph options (lines 112-147), the temporary HTML file (lines 149-151, 226-229) and the rendering are not modelled. The library's skipping of a second edge between the same pair of nodes is also not modelled: the model keeps one edge per returned interaction.
- The pandas table sorted by confidence (lines 231-234) and the CSV export (lines 258-264) are presentation only.
