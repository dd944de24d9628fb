# fix_sql in Dafny

`fix_sql.py` collapses doubled single quotes in SQL text while shielding
`$$` delimiters. Its function `fix_sql_content` makes three literal
replacements, one after the other:

1. every `$$` (a PostgreSQL dollar-quote delimiter) becomes the sentinel
   `__DOLLAR_DOLLAR_PLACEHOLDER__`;
2. every `''` becomes `'`;
3. every sentinel becomes `$$` again.

The model has three modules.

- `StrReplace` (`str_replace.dfy`) defines Python's `str.replace` as a
  recursive function, `Replace`. The scan goes left to right, replaces the
  leftmost occurrence, and resumes right after the replaced span. It also
  defines `str.count` as `Count`, and occurrence as `OccursAt` and `Contains`.
  The lemmas about the scan say when it is the identity, how it changes the
  length, and when it distributes over a concatenation.
- `FixSql` (`fix_sql.dfy`) defines the three steps `Protect`, `Collapse` and
  `Restore`, and `FixSqlContent`, which applies them in the source's order.
  The lemmas prove the main result. Step 2 commutes with step 3
  (`CollapseThenRestore`), because neither the sentinel nor `$$` holds a
  quote. So the transform is one collapse pass over the sentinel round trip
  of its input (`FixSqlContentIsCollapse`). On any text without an
  underscore the sentinel round-trips, so the transform is exactly one
  collapse pass (`FixSqlContentWithoutUnderscore`). A run of `n` quotes
  becomes `(n + 1) / 2` quotes, so the transform is not idempotent.
- `FixSqlExamples` (`fix_sql_examples.dfy`) works through concrete inputs,
  each derived from the general lemmas.

The transform is total. `FixSqlContent` has no precondition, and `Replace`
is defined for every text and every pattern, the empty pattern included.

One might expect text without `$$` and `''` to come back unchanged. The
code instead turns the sentinel itself into `$$`
(`FixSqlExamples.LiteralPlaceholder`). The identity therefore also needs the
text to hold no sentinel (`FixSql.FixSqlContentIdentity`).

The collision is also wider than the comment at fix_sql.py:5 suggests.
`__DOLLAR_DOLLAR_PLACEHOLDER$$` does not contain the sentinel, but the
transform turns it into `$$DOLLAR_DOLLAR_PLACEHOLDER__`. The sentinel begins
and ends with `__`. So the `__` that step 1 inserts completes a sentinel that
begins in the input, and step 3 restores that earlier one
(`FixSql.PartialPlaceholderCollision`).

## Model

| member | source | states |
|---|---|---|
| `StrReplace.ReplaceWithoutOccurrence` | fix_sql.py:6-12 | `replace` with a non-empty pattern that does not occur returns the text unchanged |
| `StrReplace.ReplaceIdentityIff` | fix_sql.py:6-12 | for a non-empty pattern and a different replacement, `replace` returns the text unchanged exactly when the pattern does not occur |
| `StrReplace.ReplaceSameLengthChanges` | fix_sql.py:6-12 | a same-length replacement other than the pattern changes every text that holds the pattern |
| `StrReplace.CountZeroIff` | fix_sql.py:6-12 | the scan finds no occurrence exactly when the pattern does not occur anywhere |
| `StrReplace.ReplaceLength` | fix_sql.py:6-12 | the result is as long as the text plus `count × (len(new) − len(old))` |
| `StrReplace.ReplaceCut` | fix_sql.py:6-12 | `replace` distributes over a concatenation whose seam touches a character foreign to the pattern |
| `StrReplace.CountCut` | fix_sql.py:6-12 | occurrence counts add up over such a concatenation |
| `StrReplace.ReplaceKeepsOut` | fix_sql.py:6-12 | a character found in neither the text nor the replacement is not in the result |
| `StrReplace.ReplaceHead` | fix_sql.py:6-12 | with a non-empty replacement, a non-empty text gives a non-empty result that starts with the text's or the replacement's first character |
| `FixSql.CollapseQuoteFree` | fix_sql.py:8-9 | step 2 leaves quote-free text unchanged |
| `FixSql.CollapseRun` | fix_sql.py:8-9 | step 2 turns a maximal run of `n` quotes into `(n + 1) / 2` quotes and collapses the rest independently |
| `FixSql.CollapseCommutes` | fix_sql.py:9 | step 2 commutes with any replacement whose pattern and non-empty replacement hold no quote |
| `FixSql.CollapseKeepsCount` | fix_sql.py:9 | step 2 keeps the number of occurrences of any non-empty quote-free pattern |
| `FixSql.CollapseKeepsPlaceholders` | fix_sql.py:6-9 | step 2 neither creates nor breaks a sentinel: the same count, and an occurrence before exactly when there is one after |
| `FixSql.CollapseThenRestore` | fix_sql.py:9-12 | running step 2 before step 3, as the source does, gives the same text as running it after |
| `FixSql.FixSqlContentIsCollapse` | fix_sql.py:3-14 | the transform equals one collapse pass applied to the sentinel round trip of its input |
| `FixSql.FixSqlContentWhenRoundTrip` | fix_sql.py:3-14 | whenever steps 1 and 3 alone give back the input, the transform is exactly one collapse pass |
| `FixSql.RoundTripWithoutUnderscore` | fix_sql.py:4-12 | on text without an underscore, step 3 undoes step 1 exactly |
| `FixSql.FixSqlContentWithoutUnderscore` | fix_sql.py:3-14 | on text without an underscore, the transform is exactly one left-to-right `''` → `'` pass |
| `FixSql.FixSqlContentIdentity` | fix_sql.py:6-12 | text without `$$`, `''` or the sentinel comes back unchanged |
| `FixSql.FixSqlContentQuoteRun` | fix_sql.py:9 | a run of `n` quotes becomes a run of `(n + 1) / 2` quotes |
| `FixSql.FixSqlContentNotIdempotent` | fix_sql.py:9 | applying the transform twice to a run of `n` quotes gives the single-application result exactly when `n <= 2` |
| `FixSql.CollapseBetween` | fix_sql.py:9 | step 2 turns quote-free text, a run of `n` quotes and quote-free text (either text possibly empty) into the same texts around `(n + 1) / 2` quotes |
| `FixSql.FixSqlContentBetween` | fix_sql.py:3-14 | the same holds for the whole transform when neither text holds an underscore |
| `FixSql.CollapseAroundDollars` | fix_sql.py:9 | step 2 collapses the text on either side of a `$$` separately and leaves the `$$` itself in place |
| `FixSql.FixSqlContentKeepsDollars` | fix_sql.py:4-12 | on text without an underscore, a `$$` survives verbatim and the quotes on each side collapse independently |
| `FixSql.ProtectPlaceholder` | fix_sql.py:6 | step 1 passes a sentinel already in the text through untouched |
| `FixSql.ProtectCollision` | fix_sql.py:5-6 | after a text not ending in `$`, step 1 produces the same text from a sentinel as from a `$$` |
| `FixSql.PlaceholderCollision` | fix_sql.py:5-12 | a sentinel in the input gives the same output as `$$` in its place, provided the text before it does not end in `$` |
| `FixSql.ProtectPartial` | fix_sql.py:6 | on the sentinel minus its trailing `__`, followed by `$$`, step 1 replaces only the `$$` |
| `FixSql.RestorePartial` | fix_sql.py:12 | step 3 then finds a sentinel at the start, built from input text and the inserted `__`, and leaves the sentinel's tail behind |
| `FixSql.PartialPlaceholderCollision` | fix_sql.py:5-12 | `__DOLLAR_DOLLAR_PLACEHOLDER$$` holds no sentinel, yet it comes out as `$$DOLLAR_DOLLAR_PLACEHOLDER__`, not unchanged |
| `FixSqlExamples.EmptyInput` | fix_sql.py:3-14 | the empty text maps to the empty text |
| `FixSqlExamples.DoubledQuote` | fix_sql.py:8-9 | `it''s` becomes `it's` |
| `FixSqlExamples.DollarDelimiters` | fix_sql.py:4-12 | `a$$b$$c` comes out unchanged |
| `FixSqlExamples.QuotesAroundDollars` | fix_sql.py:4-12 | `''$$''` becomes `'$$'` |
| `FixSqlExamples.FourQuotes` | fix_sql.py:9 | `a''''b` becomes `a''b`, not `a'b` |
| `FixSqlExamples.ThreeQuotes` | fix_sql.py:9 | `'''` becomes `''` |
| `FixSqlExamples.SecondPassDiffers` | fix_sql.py:9 | a second application maps `a''b`, the result for `a''''b`, on to `a'b` |
| `FixSqlExamples.LiteralPlaceholder` | fix_sql.py:5-12 | the sentinel holds neither `$$` nor `''`, yet it comes out as `$$` |

## Left out

- The `__main__` block (fix_sql.py:16-19) is left out. It reads standard input and writes standard output, and has no logic.
- Text decoding and encoding of the streams are left out. So are memory use and input size. Text is a sequence of `char`.
- The optional `count` argument of `str.replace` is left out, because the source never passes it.
- RoundTripWithoutUnderscore (`FixSql.RoundTripWithoutUnderscore`): gives a sufficient condition (no underscore) for the sentinel round trip, not an exact one. The exact condition depends on how input text overlaps the sentinel. `FixSql.PartialPlaceholderCollision` shows that the condition cannot simply be dropped.
- FixSqlContentKeepsDollars (`FixSql.FixSqlContentKeepsDollars`): assumes no underscore on either side of the `$$`. Without that assumption the property is false: with the sentinel minus its trailing `__` before the `$$`, it fails (`FixSql.PartialPlaceholderCollision`).
- Nothing treats the text as SQL. Like the source, the model does only literal substitution on characters.
