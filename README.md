# Fixture extender: record synthesis

This project models the record-synthesis core of
`scripts/extend_products_with_kaggle.py` in Dafny and proves properties of
that model. The script reads the existing product fixture, samples rows from
the joined style and image tables, turns each row into a product record, and
writes back the existing records followed by the new ones. The new records
get primary keys that continue after the largest existing key.

Two modules:

- `Text` (`text.dfy`) holds ASCII models of the Python string operations the
  script uses:
  - `str.strip()` (`Strip`), `str.rstrip(".")` (`RStripChar`), `str.lower()`
    (`Lower`) and `" ".join(...)` (`Join`)
  - the format specification `"06d"` (`FormatZeroFilled`), with `int()` to
    read a numeral back (`ParseInt`)

  Strip is specified independently by `IsStripOf`: what remains is a slice
  that starts and ends on a non-space character, with only whitespace around
  it.
- `ExtendProducts` (`extend_products.dfy`) holds everything else:
  - `safe_str` (`SafeStr`), `build_description` (`BuildDescription`), the
    category lookup (`CategoryKey`) and the SKU (`Sku`)
  - the record built for one row (`BuildFields`, `BuildRecord`)
  - the numbering loop of `main` (method `NumberRows`)
  - the whole run from loaded fixture to written list (method
    `ExtendWith` for any record builder, and `ExtendFixture` for the
    script's builder `BuildFields`, specified by `ExtendedWith` and
    `Extended`)

A sampled row is `SampledRow(id, cells)`. `cells` maps column names to
`Str(s)` or to `NotStr`. `NotStr` stands for NaN, `None` or a number. A
column the row lacks reads as `NotStr`, as `row.get` returns `None`.

The six `if attr: parts.append(...)` steps of `build_description` are
written as one recursion, `AttributeSentences`, over the fixed attribute
order gender, masterCategory, subCategory, articleType, baseColour, usage.
The lemma `AttributeSentencesAreKept` proves it equal to an independent
reading of the same steps: keep the attributes with non-empty text, in
order, then write one sentence for each.

The numbering loop takes the field builder as a parameter (`build`).
`NumberRows` runs the counter loop and is proved equal to `Numbered(build,
…)`. `ExtendWith` calls it, and `ExtendFixture` runs `ExtendWith` with
`BuildFields`. This keeps the proofs about keys separate from the contents
of each record.

Python's `max()` of an empty sequence raises. The model returns
`Failure(EmptyFixture)` in that case.

The SKU `f"FP{id:06d}"` pads to at least six digits, keeps a longer id
whole, and puts the sign of a negative id before the zeros;
`SkuExampleLong` and `SkuExampleNegative` show this.

## Model

| member | source | states |
|---|---|---|
| Text.Strip | scripts/extend_products_with_kaggle.py:30 | `val.strip()` never lengthens the string and leaves no whitespace at either end |
| Text.StripIsStripOf | scripts/extend_products_with_kaggle.py:30 | the stripped string is a slice of the input that starts and ends on a non-space character, with only whitespace before and after it |
| Text.StripOfUnique | scripts/extend_products_with_kaggle.py:30 | that characterisation allows one result only, so any string meeting it is the strip |
| Text.StripIdempotent | scripts/extend_products_with_kaggle.py:30 | stripping a stripped string changes nothing |
| Text.RStripCharShape | scripts/extend_products_with_kaggle.py:48 | `name.rstrip(".")` is a prefix of the name, everything it removes is a dot, and it does not end in a dot |
| Text.Lower | scripts/extend_products_with_kaggle.py:51 | lower-casing keeps the length |
| Text.LowerAt | scripts/extend_products_with_kaggle.py:51-61 | each capital ASCII letter becomes its small letter, every other character stays, and no capital letter is left |
| Text.LowerIdempotent | scripts/extend_products_with_kaggle.py:51-61 | lower-casing twice is lower-casing once |
| Text.Join | scripts/extend_products_with_kaggle.py:63 | joining no parts gives "", and joining one part gives that part |
| Text.JoinEnds | scripts/extend_products_with_kaggle.py:63 | the joined string starts with the first part, then the separator when more parts follow, and ends with the last part |
| Text.JoinShape | scripts/extend_products_with_kaggle.py:63 | the joined string has the first part as a prefix; it equals that part exactly when there is one part; otherwise the separator follows it; it ends on the last part's final character |
| Text.JoinLength | scripts/extend_products_with_kaggle.py:63 | the joined length is the sum of the part lengths plus one separator per seam |
| Text.DecimalRoundTrip | scripts/extend_products_with_kaggle.py:110 | the decimal numeral of n denotes n |
| Text.DecimalDigits | scripts/extend_products_with_kaggle.py:110 | the numeral has digits only, and a leading zero only for 0 |
| Text.ZeroPadShape | scripts/extend_products_with_kaggle.py:110 | zero filling only puts '0' characters in front and keeps the numeral whole |
| Text.FormatZeroFilledRoundTrip | scripts/extend_products_with_kaggle.py:110 | `int(format(n, "06d")) == n` for every integer n, negative ones included |
| Text.FormatZeroFilledLength | scripts/extend_products_with_kaggle.py:110 | a non-negative value below 10^width (width at least 1) fills exactly width characters |
| ExtendProducts.SafeStr | scripts/extend_products_with_kaggle.py:27-31 | a non-string gives ""; a string gives a value no longer than the input with no whitespace at either end |
| ExtendProducts.SafeStrIsStrip | scripts/extend_products_with_kaggle.py:29-30 | for a string, `safe_str` meets the strip characterisation |
| ExtendProducts.SafeStrUnique | scripts/extend_products_with_kaggle.py:29-30 | for a string, `safe_str` is the one string meeting the strip characterisation |
| ExtendProducts.SafeStrIdempotent | scripts/extend_products_with_kaggle.py:27-31 | applying `safe_str` to its own result changes nothing |
| ExtendProducts.DescriptionName | scripts/extend_products_with_kaggle.py:39 | the name is the cleaned display name, or "Fashion item" when that is empty, and never empty |
| ExtendProducts.NameSentenceShape | scripts/extend_products_with_kaggle.py:48 | the first sentence ends in exactly one dot; before it stands the name minus its run of trailing dots |
| ExtendProducts.AttributeSentencesAreKept | scripts/extend_products_with_kaggle.py:50-61 | the conditional appends equal: keep the attributes with non-empty text, in order, then one lower-cased sentence per kept attribute |
| ExtendProducts.PresentIffNonEmpty | scripts/extend_products_with_kaggle.py:41-61 | an attribute contributes a sentence if and only if its `safe_str` text is non-empty; contributors follow the fixed order, each at most once |
| ExtendProducts.PresentEmptyIff | scripts/extend_products_with_kaggle.py:41-61 | no attribute contributes if and only if every attribute text is empty |
| ExtendProducts.SentencesForAt | scripts/extend_products_with_kaggle.py:50-61 | the sentence at each position is that attribute's template filled with its lower-cased text |
| ExtendProducts.SentencesFollowOrder | scripts/extend_products_with_kaggle.py:48-61 | `parts` is the name sentence followed by the sentences of the contributing attributes, so it has 1 + (number of contributors) entries |
| ExtendProducts.SentencesEnds | scripts/extend_products_with_kaggle.py:48-61 | `parts` opens with the name sentence, has 1 + (number of contributors) entries and ends with a sentence that ends in a dot |
| ExtendProducts.DescriptionShape | scripts/extend_products_with_kaggle.py:34-63 | the description starts with the name sentence; it is exactly that sentence when no attribute contributes, otherwise a space follows it; it ends with a dot |
| ExtendProducts.BlueSneakerDescription | scripts/extend_products_with_kaggle.py:34-63 | any row named "Blue Sneaker" whose attribute texts are all empty (for instance gender " " and usage NaN, as `BlueSneakerCells` shows) gives exactly "Blue Sneaker." |
| ExtendProducts.CategoryKey | scripts/extend_products_with_kaggle.py:107-108 | the key is the map's value for a listed label, 8 exactly for unlisted labels, and always one of 1, 8, 10, 11, 12, 13, 14 |
| ExtendProducts.CategoryKeyInjective | scripts/extend_products_with_kaggle.py:17-24 | distinct listed labels get distinct keys |
| ExtendProducts.CategoryKeyExamples | scripts/extend_products_with_kaggle.py:108 | "Footwear" gives 10; "" and the lower-case "footwear" get the default 8 |
| ExtendProducts.SkuRoundTrip | scripts/extend_products_with_kaggle.py:110 | a SKU starts with "FP", and the id can be read back from it |
| ExtendProducts.SkuInjective | scripts/extend_products_with_kaggle.py:110 | distinct ids give distinct SKUs |
| ExtendProducts.SkuLength | scripts/extend_products_with_kaggle.py:110 | an id in 0 .. 999999 gives an eight-character SKU |
| ExtendProducts.SkuExampleShort | scripts/extend_products_with_kaggle.py:110 | id 25947 gives "FP025947" |
| ExtendProducts.SkuExampleLong | scripts/extend_products_with_kaggle.py:110 | id 1234567 gives "FP1234567" (no truncation) |
| ExtendProducts.SkuExampleNegative | scripts/extend_products_with_kaggle.py:110 | id -5 gives "FP-00005" (the sign counts toward the width) |
| ExtendProducts.BuildFieldsFacts | scripts/extend_products_with_kaggle.py:121-136 | field by field: the name is the cleaned display name or "Fashion product", never empty; the SKU is `Sku(id)` and reads back to the row id; the description is `build_description` of the row; the category is `CategoryKey` of the cleaned masterCategory, i.e. `CATEGORY_MAP[label]` for a listed label and 8 exactly for unlisted ones; image URL and filename are the cleaned `link` and `filename`; price and rating are passed through |
| ExtendProducts.NamelessRow | scripts/extend_products_with_kaggle.py:126-129 | with no display name, the record is called "Fashion product" while its description opens with "Fashion item." |
| ExtendProducts.MaxOfIsMax | scripts/extend_products_with_kaggle.py:103 | the maximum is one of the keys, and no key exceeds it |
| ExtendProducts.MaxPkIsMax | scripts/extend_products_with_kaggle.py:103 | `max(item["pk"] for item in existing)` is the key of some record and bounds every key |
| ExtendProducts.NumberedAt | scripts/extend_products_with_kaggle.py:106-139 | record i is built from sampled row i and gets key start + i |
| ExtendProducts.NumberRows | scripts/extend_products_with_kaggle.py:102-139 | the counter loop returns exactly the numbered records: one per row, in order, with keys start, start + 1, … |
| ExtendProducts.NewRecordsAt | scripts/extend_products_with_kaggle.py:121-138 | each new record is the product record of its row under its key |
| ExtendProducts.ExtendWith | scripts/extend_products_with_kaggle.py:102-143 | for any record builder: fails on an empty fixture, otherwise returns the existing records followed by the rows numbered from max + 1 |
| ExtendProducts.ExtendFixture | scripts/extend_products_with_kaggle.py:102-143 | the run with the script's own record builder: fails on an empty fixture; otherwise returns the existing records followed by the numbered rows from max + 1 |
| ExtendProducts.ExtendedKeepsExisting | scripts/extend_products_with_kaggle.py:143 | the run fails exactly when the fixture is empty; otherwise the output has length existing + sample, existing unchanged as a prefix, then one record per row built from that row |
| ExtendProducts.NewKeysContiguous | scripts/extend_products_with_kaggle.py:103-139 | new keys are max + 1, max + 2, … in sampling order and exceed every existing key, for any record builder |
| ExtendProducts.ExtendedKeepsKeysUnique | scripts/extend_products_with_kaggle.py:102-143 | if the existing keys are pairwise distinct, so are all keys of the output, for any record builder |
| ExtendProducts.ExtendedMaxPk | scripts/extend_products_with_kaggle.py:103-143 | the output's maximum key is the old maximum plus the number of sampled rows, for any record builder |
| ExtendProducts.RerunContinues | scripts/extend_products_with_kaggle.py:73-146 | feeding the written fixture into a second run keeps it as a prefix and continues the keys after the first run's last one |

The functions that do the modelling carry no contract of their own, or only
a length bound. The lemmas above state their behaviour:

- `ExtendProducts.BuildDescription` (scripts/extend_products_with_kaggle.py:34-63):
  `DescriptionShape`, `SentencesFollowOrder`, `SentencesEnds`
- `ExtendProducts.Sentence` and `ExtendProducts.AttributeSentences` (lines 50-61):
  `SentencesForAt`, `AttributeSentencesAreKept`, `PresentIffNonEmpty`
- `ExtendProducts.NameSentence` and `Text.RStripChar` (line 48):
  `NameSentenceShape`, `RStripCharShape`
- `ExtendProducts.Sku` and `Text.FormatZeroFilled` (line 110): `SkuRoundTrip`,
  `SkuLength`, `FormatZeroFilledRoundTrip`, `FormatZeroFilledLength`
- `ExtendProducts.BuildFields` (lines 121-136): `BuildFieldsFacts`
- `ExtendProducts.MaxPk` (line 103): `MaxPkIsMax`
- `ExtendProducts.ExtendedWith` and `ExtendProducts.Extended` (lines 102-143):
  `ExtendWith`, `ExtendFixture`, `ExtendedKeepsExisting`, `NewKeysContiguous`,
  `ExtendedKeepsKeysUnique`, `ExtendedMaxPk`, `RerunContinues`

## Left out

- The existence checks with `SystemExit`, JSON loading and writing, and the
  progress prints (scripts/extend_products_with_kaggle.py:67-77, 141-149).
  These are file I/O. The loaded fixture is an input and the written list is
  the result.
- pandas `read_csv`, `merge`, `dropna`, `fillna` and
  `sample(n=100, random_state=42)` (lines 80-100). These are library
  behaviour. The sampled rows are an input sequence. `sample` raises when
  fewer than 100 rows survive the join; that check and the fixed count of
  100 are not modelled.
- Deriving the image id with `str.replace(".jpg", "")` and
  `astype("int64")` (lines 84-88). The id is an unbounded `int`, with no
  64-bit bound.
- Price and rating (lines 112-119). They use `float()`, `random.uniform`
  and `round` on floating point. They are supplied per row as a `Draw` and
  copied into the record unchanged.
- Existing fixture entries are modelled as product `Record`s with an
  integer `pk`. The script reads only `pk` and copies each entry unchanged,
  whatever else it holds. A missing `pk` raises `KeyError`, a string or
  `null` one raises `TypeError`, and a float one runs on with float keys.
  None of this is modelled.
- Text.Strip: models ASCII whitespace only (space, tab through carriage
  return, and \x1c-\x1f). Python also strips Unicode whitespace such as
  U+00A0 or U+2028; the model treats those as ordinary characters.
- Text.Lower: models ASCII capitals only. Python also lower-cases non-ASCII
  letters; the model leaves them unchanged.
- Column names and the product model tag are plain strings. pandas' column
  typing is not modelled.
- `scripts/download_fixture_images.py` is not part of this model. It
  consists of HTTP downloads and file writes.
