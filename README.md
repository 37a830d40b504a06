# CTC label encoder of asr-e2e

A Dafny model of the part of `models/ctc/ctc_utils.py` that turns one speech
training example (a feature matrix plus a Russian transcript) into the inputs
of the CTC loss, and of the batch loop that collects these results.

For one example, `convert_input_to_ctc_format` does the following:

* It strips the transcript (`Strip`) and lower-cases it (`Lower`).
* It passes the text through `' '.join(… .split(' '))` (`Join`, `Split`).
* It deletes the six characters `. ? , ' ! -` (`DeletePunctuation`). The
  result is `original` (`CleanTranscript`).
* It doubles every space (`DoubleSpaces`) and splits on `' '` again. Every
  empty piece becomes the blank label `<space>`. Every other piece gives its
  characters in order (`PieceTokens`, `Flatten`, `Tokens`).
* A loop maps each label through the fixed table (`TokenId`): the blank is 0,
  `ё` is 33, and any other character `c` is `ord(c) - 1071`, so `а` … `я` are
  1 … 32 (`CtcConvert.EncodeTokens`).

The feature matrix is represented only by its shape. `seq_length` is the
one-element list holding its row count (`CtcConvert.ConvertInput`).
`convert_inputs_to_ctc_format` runs this over the batch in order. It
appends to four lists, then concatenates the feature tensors along the batch
axis (`CtcConvert.ConvertInputs`, `CtcConvert.Concatenate`).

Two files, one module each:

* `ctc_text.dfy`, module `CtcText`: the pure text pipeline as functions, and
  the lemmas about it.
* `ctc_convert.dfy`, module `CtcConvert`: the two loops of the source as
  methods, plus the shape of `np.concatenate`.

Where the docstrings and the code disagree, the model follows the code:

* `original` is a string, not "a list of original words".
* `seq_length` is the number of rows of the feature matrix, whichever of the
  two docstring orders is meant.

Some behaviours the model keeps because the code has them:

* An empty `original` encodes to the single id `[0]`.
* A space at the start of `original` gives two blanks. Deleting punctuation
  after stripping can leave such a space, as in `"- да"`.
* Only capital `Я` (U+042F) would also receive id 0. Lower-casing removes it,
  so on a normalised transcript id 0 marks exactly the blanks.

## Model

| member | source | states |
|---|---|---|
| CtcText.TokenId | models/ctc/ctc_utils.py:44-50 | definition of the id of one label: `SPACE_INDEX` for the blank, `YO_INDEX - FIRST_INDEX` for `ё`, `ord(c) - FIRST_INDEX` otherwise |
| CtcText.LetterIds | models/ctc/ctc_utils.py:10 | a letter `а`..`я` gets id `ord(c) - 1071`, which lies in 1..32 |
| CtcText.LetterIdsIncreasing | models/ctc/ctc_utils.py:10 | ids of the letters `а`..`я` strictly increase with the code point |
| CtcText.YoFollowsYa | models/ctc/ctc_utils.py:8-11 | `ё` gets 33, one more than `я`; `а` gets 1; the blank gets `SPACE_INDEX` 0 |
| CtcText.AlphabetIds | models/ctc/ctc_utils.py:8-11 | on the 34 labels (blank, `а`..`я`, `ё`) the id table is injective with values in 0..33 |
| CtcText.ZeroIdOnlyForBlank | models/ctc/ctc_utils.py:44-50 | id 0 is given to the blank and to no character except capital `Я` |
| CtcText.Encode | models/ctc/ctc_utils.py:43-52 | definition of the id array: the table id of each label, in order |
| CtcText.EncodeIds | models/ctc/ctc_utils.py:43-52 | the id array has one id per label, and id k is the table id of label k |
| CtcText.Strip | models/ctc/ctc_utils.py:34 | definition of `strip()`: the leading whitespace is dropped, then the trailing whitespace |
| CtcText.StripLeadingSpec | models/ctc/ctc_utils.py:34 | the leading part of strip drops exactly the longest whitespace prefix |
| CtcText.StripTrailingSpec | models/ctc/ctc_utils.py:34 | the trailing part of strip drops exactly the longest whitespace suffix |
| CtcText.StripSpec | models/ctc/ctc_utils.py:34 | `strip()` returns the infix of the text between all-whitespace ends, and that infix neither starts nor ends with whitespace |
| CtcText.LowerChar | models/ctc/ctc_utils.py:34 | lower-casing leaves no ASCII or Cyrillic capital and changes exactly the capitals; it keeps whitespace as whitespace |
| CtcText.Lower | models/ctc/ctc_utils.py:34 | definition of `lower()`: `LowerChar` applied to every character; the length is kept |
| CtcText.LowerIdempotent | models/ctc/ctc_utils.py:34 | `lower()` applied twice is `lower()` applied once, and its result holds no capital |
| CtcText.Split | models/ctc/ctc_utils.py:34 | `split(' ')` yields at least one piece and no piece contains a space |
| CtcText.Join | models/ctc/ctc_utils.py:34 | definition of `' '.join(pieces)` |
| CtcText.JoinSplit | models/ctc/ctc_utils.py:34 | `' '.join(s.split(' '))` is the identity on every string |
| CtcText.SplitJoin | models/ctc/ctc_utils.py:34 | splitting the join of a non-empty list of space-free pieces gives those pieces back |
| CtcText.Delete | models/ctc/ctc_utils.py:34-35 | definition of one `replace(c, '')` |
| CtcText.DeletePunctuation | models/ctc/ctc_utils.py:34-35 | definition of the chain of six `replace(…, '')` calls, in source order |
| CtcText.Filter | models/ctc/ctc_utils.py:34-35 | reference for the deletions: no kept character is in the deleted set, and a text with nothing to delete is unchanged |
| CtcText.FilterCounts | models/ctc/ctc_utils.py:34-35 | every character outside the deleted set keeps its number of occurrences |
| CtcText.FilterConcat | models/ctc/ctc_utils.py:34-35 | deleting commutes with concatenation, so kept characters keep their order |
| CtcText.DeleteAfterFilter | models/ctc/ctc_utils.py:34-35 | one more `replace(c, '')` after a deletion deletes `c` as well |
| CtcText.DeletePunctuationIsFilter | models/ctc/ctc_utils.py:34-35 | the chain of six `replace(…, '')` calls equals deleting the set `. ? , ' ! -` at once |
| CtcText.CleanTranscript | models/ctc/ctc_utils.py:33-35 | definition of `original`: strip, lower, split and join, then the six deletions |
| CtcText.CleanTranscriptSpec | models/ctc/ctc_utils.py:33-35 | `original` is `lower(strip(text))` with exactly the six characters deleted; it holds no punctuation and no capital, and every other character keeps its count |
| CtcText.DoubleSpaces | models/ctc/ctc_utils.py:37 | definition of `replace(' ', '  ')` |
| CtcText.SplitDoubled | models/ctc/ctc_utils.py:37-38 | splitting the space-doubled text gives the pieces of `original` with an empty piece inserted in every gap |
| CtcText.PieceTokens | models/ctc/ctc_utils.py:41 | definition of the element expression of the comprehension: `<space>` for an empty piece, `list(x)` otherwise |
| CtcText.Flatten | models/ctc/ctc_utils.py:41 | definition of `np.hstack` over the per-piece label lists |
| CtcText.FlattenConcat | models/ctc/ctc_utils.py:41 | stacking a concatenation of piece lists is the concatenation of the two stacks, so each piece's labels stay in place and in order |
| CtcText.Tokens | models/ctc/ctc_utils.py:37-41 | definition of the label array built from `original` |
| CtcText.Labels | models/ctc/ctc_utils.py:43-52 | definition of the target: `Encode` of the labels |
| CtcText.TokensOfPieces | models/ctc/ctc_utils.py:37-41 | the labels are those of the pieces of `original`, with a blank in each gap between pieces |
| CtcText.TokensLength | models/ctc/ctc_utils.py:23 | the target has one label per character of `original` plus one per empty piece ("number_of_characters + blanks") |
| CtcText.EmptyOriginal | models/ctc/ctc_utils.py:37-52 | an empty `original` encodes to the single blank, id list `[0]` |
| CtcText.LeadingSpaceTwoBlanks | models/ctc/ctc_utils.py:37-41 | a leading space of `original` gives two blanks in front of the rest's labels |
| CtcText.SingleSpacedPieces | models/ctc/ctc_utils.py:38 | words separated by single spaces, with no space at either end, split into non-empty pieces only |
| CtcText.InterleaveSpelledOut | models/ctc/ctc_utils.py:37-41 | for non-empty space-free pieces, the labels are the joined text spelled out with blanks at the spaces |
| CtcText.SingleSpacedTokens | models/ctc/ctc_utils.py:37-41 | for a single-spaced `original`, label i is the blank exactly where `original[i]` is a space, else `original[i]` |
| CtcText.TokenCharsFromText | models/ctc/ctc_utils.py:37-41 | every character label is a character of `original` and never a space |
| CtcText.BlankIds | models/ctc/ctc_utils.py:44-50 | in a text without capitals there is one id per label, and an id is 0 exactly when its label is the blank |
| CtcText.BlankIdsAreSpaces | models/ctc/ctc_utils.py:33-50 | on the normalised transcript there is one id per label, and an id is 0 exactly when its label is the blank |
| CtcText.SingleSpacedLabels | models/ctc/ctc_utils.py:37-52 | for a single-spaced `original` without capitals, the target length is `len(original)`; `target[i] == 0` exactly when `original[i]` is a space, and otherwise `target[i]` is the table id of `original[i]` |
| CtcText.SingleSpacedTranscript | models/ctc/ctc_utils.py:33-52 | when the normalised transcript is single-spaced, it has one id per character, 0 exactly at its spaces, and the table id of the character elsewhere |
| CtcText.AlphabetLabels | models/ctc/ctc_utils.py:43-50 | a transcript of letters, `ё` and spaces gets ids in 0..33 only |
| CtcConvert.EncodeTokens | models/ctc/ctc_utils.py:43-52 | the id loop returns one id per label, id k is the table id of label k, and the result is `Encode` of the labels |
| CtcConvert.ConvertInput | models/ctc/ctc_utils.py:27-54 | tensor shape `[1 x rows x ceps]`, `seq_length == [rows]`, `original` is the normalised transcript, and `target` holds its label ids |
| CtcConvert.Concatenate | models/ctc/ctc_utils.py:84 | concatenation succeeds exactly when there is at least one tensor and all share the time and coefficient dimensions |
| CtcConvert.ConcatenateUnits | models/ctc/ctc_utils.py:84 | concatenating n single-example tensors of one shape gives batch dimension n |
| CtcConvert.ConcatenateBatch | models/ctc/ctc_utils.py:84 | the batch's tensors concatenate exactly when the batch is non-empty with uniform shapes, giving `[len(batch) x rows x ceps]` |
| CtcConvert.ConvertInputs | models/ctc/ctc_utils.py:70-84 | each list has `len(batch)` entries; entry i of `seq_lengths`, `originals` and `targets` is the single-example result for `batch[i]`; the feature batch exists exactly when the batch is non-empty and uniform, and its batch dimension is `len(batch)` |

## Left out

- Feature normalisation `(x - mean) / std` (ctc_utils.py:30): floating-point numerics. The feature matrix is modelled only by its shape.
- `ut.sparse_tuple_from` (ctc_utils.py:86): its source is not part of this model. `CtcConvert.ConvertInputs` returns the list of targets that would be passed to it.
- `handle_feature_vectors_batch` and `handle_batch` (ctc_utils.py:90-126): they call `dp.pad_feature_vectors` and `dp.parse_example_file`, whose sources are not part of this model; the second is also file I/O. Their `tf.logging` calls are logging side effects.
- `nn/abstract_model.py`: an interface whose constructor only stores fields and whose one method is abstract; it has no behaviour to model.
- CtcText.LowerChar: models `str.lower()` only for ASCII `A`–`Z` and the Cyrillic capitals U+0400–U+042F. Every other character is left unchanged. Full Unicode case mapping, including mappings that change the length, is not modelled.
- CtcText.StripSpec: models `str.strip()` only for the ASCII whitespace that Python's `str.isspace` accepts (tab through carriage return, U+001C–U+001F, and space). Unicode whitespace beyond ASCII is not stripped.
- CtcConvert.Concatenate: models only the tensor's shape, not its values. It also does not model numpy's exception, which is represented as `None`.
- CtcConvert.EncodeTokens: the ids are unbounded integers, and no wrap-around is modelled. Every id lies between -1071 and 0x10FFFF - 1071, so it fits in 32 bits, whatever integer width numpy picks for `np.asarray(ids)`.
- CtcText.Flatten: does not model how `np.hstack` stores the labels. It keeps them in a fixed-width unicode array, and reading an element back drops trailing U+0000. So a `'\x00'` in `original` becomes the label `''`, and `ord('')` on line 50 raises `TypeError`. The model turns it into `Ch('\0')` with id -1071 instead.
- CtcText.Tokens: Python strings may hold lone surrogates (U+D800–U+DFFF), which a Dafny `char` cannot. Transcripts containing them are outside the model.
