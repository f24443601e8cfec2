# Record-level inverted index, modelled in Dafny

This project models `inverted_index.py`, a record-level inverted index. One
dictionary maps each term to the set of ids of the records whose text holds
that term.

- `write(text, record_id)` splits the text into terms and adds `record_id` to
  each term's posting set. It creates the set when the term is new.
- `search(term)` splits the query the same way. It copies the first term's
  postings, then intersects the running result with each later term's
  postings through `set_and_operation`. It returns early once an intersection
  is empty. A query without terms returns `None`.

Modules, one per component:

- `Wrappers` (`wrappers.dfy`): the `Option` type that `search` returns.
- `Tokenizer` (`tokenizer.dfy`): `str.split()` and `str.strip()` as pure
  functions. It has the split/join round trip, the no-term case, and the fact
  that stripping a split piece changes nothing.
- `IndexSpec` (`index_spec.dfy`): the index as a value `map<string, set<int>>`.
  - `Postings` is `__get_documents`: a lookup that gives the empty set for an unknown term.
  - `AddPosting` and `WriteAll` are the effect of `__write_to_index` and `write`.
  - `AndOfPostings` and `Answer` give the answer of `search`.
  - `Build` writes a whole history of records into an empty index.
  - The lemmas state what these functions promise.
- `InvertedIndex` (`inverted_index.dfy`): the imperative code.
  - `SetAndOperation` is a loop over `set2`.
  - Class `RecordLevelInvertedIndex` has the field `index`. Its `Write` and
    `WriteToIndex` update `index` in place. `Search` keeps a running result,
    copies the first term's postings element by element, and returns early.
  - `Write`, `WriteToIndex` and `Search` are proved against the `IndexSpec`
    functions, `SetAndOperation` against set intersection `set1 * set2`,
    and the constructor against the empty map.

Points where the model follows the code exactly:

- A query with no terms returns `None`, not an empty set: `found_documents`
  starts as `None` (inverted_index.py:40) and is returned unchanged
  (inverted_index.py:54). `Search` returns `Option<set<int>>`, and
  `AnswerNoneIff` states exactly when the answer is `None`.
- The return annotation `-> int` on `search` (inverted_index.py:37) is wrong.
  The method returns a set or `None`.
- The early return sits only in the branch for the second and later terms
  (inverted_index.py:52-53). If the first term's postings are empty, the loop
  keeps going with an empty running result. `AndEmptyPrefix` shows that both
  paths give the same answer.

Whitespace is the fixed set space, tab, line feed, carriage return, vertical
tab and form feed.

## Model

| member | source | states |
|---|---|---|
| `Tokenizer.WordLength` | inverted_index.py:27 | the length of the longest whitespace-free prefix: every character before it is a non-blank, and the character at it, if any, is whitespace |
| `Tokenizer.Split` | inverted_index.py:27 | `str.split()`: every piece is a non-empty word free of whitespace |
| `Tokenizer.TrimLeft` | inverted_index.py:28 | the result is a suffix of the input, everything dropped is whitespace, and the result does not start with whitespace |
| `Tokenizer.TrimRight` | inverted_index.py:28 | the result is a prefix of the input, everything dropped is whitespace, and the result does not end with whitespace |
| `Tokenizer.Strip` | inverted_index.py:28 | `str.strip()`: neither end of the result is whitespace, and a word comes back unchanged |
| `Tokenizer.Tokens` | inverted_index.py:27-28 | the split-and-strip term list equals the plain split, because strip is a no-op on split pieces, and every term is a non-empty whitespace-free word (the same code is at lines 38-39) |
| `Tokenizer.SplitEmptyIff` | inverted_index.py:27-30 | a text yields no term if and only if it is empty or all whitespace |
| `Tokenizer.SplitWordThen` | inverted_index.py:27 | a word followed by nothing or by whitespace is split off whole, ahead of the words of the rest |
| `Tokenizer.SplitSep` | inverted_index.py:27 | splitting at any whitespace character gives the words before it followed by the words after it; with `SplitWordThen` and `SplitEmptyIff` this determines the split of every text, including leading, trailing and repeated whitespace |
| `Tokenizer.SplitJoin` | inverted_index.py:27 | splitting words joined by single spaces gives back exactly those words, in order |
| `Tokenizer.TokensKeepPunctuation` | inverted_index.py:38-39 | punctuation is kept in a term: "search engines." yields "search" and "engines." |
| `IndexSpec.Postings` | inverted_index.py:56-59 | `__get_documents`: the posting set of a key, and the empty set for a term that is no key |
| `IndexSpec.WriteAllPostings` | inverted_index.py:26-35 | after a write, the keys are the old keys plus the written words, and a term's postings gain `record_id` exactly when the term was written |
| `IndexSpec.WriteRecordsEveryWord` | inverted_index.py:29-35 | after `write(text, id)` every term of the text is a key, and its posting set holds `id` |
| `IndexSpec.WriteOnlyAdds` | inverted_index.py:32-35 | old postings are kept as subsets, terms not written keep their postings, no key is created for an unwritten term, and `id` is the only record id that can be added |
| `IndexSpec.WriteIdempotent` | inverted_index.py:33-35 | writing the same words with the same id twice gives the same index as writing them once |
| `IndexSpec.WriteSameWords` | inverted_index.py:29-30 | only the set of words written matters, not their order or repetition |
| `IndexSpec.WritesCommute` | inverted_index.py:26-35 | two writes give the same index in either order |
| `IndexSpec.WriteKeepsNoEmptyPostings` | inverted_index.py:33-35 | a write never creates an empty posting set |
| `IndexSpec.WriteBlankText` | inverted_index.py:27-30 | writing an empty or whitespace-only text leaves the index unchanged |
| `IndexSpec.BuildPostings` | inverted_index.py:21-35 | in an index built by writes, a term's postings hold id `r` if and only if some record written with id `r` has that term in its text |
| `IndexSpec.BuildKeys` | inverted_index.py:32-34 | a term is a key if and only if some written record has it in its text |
| `IndexSpec.BuildNoEmptyPostings` | inverted_index.py:23-35 | every key of an index built by writes maps to a non-empty set |
| `IndexSpec.AndFirst` | inverted_index.py:42-47 | proof step of `Search` for the first term: the running result after the first term is that term's postings, or the empty set for an unknown term |
| `IndexSpec.AndNext` | inverted_index.py:48-51 | proof step of `Search` for each later term: it intersects the running result with its postings |
| `IndexSpec.AndMembership` | inverted_index.py:41-54 | a record id is in the answer if and only if every query term's postings hold it |
| `IndexSpec.AndSameTerms` | inverted_index.py:41-51 | queries with the same set of terms give the same answer, so permuted or repeated terms change nothing |
| `IndexSpec.AndUnknownTerm` | inverted_index.py:56-59 | a query term that is not a key makes the answer empty |
| `IndexSpec.AndEmptyPrefix` | inverted_index.py:52-53 | once the answer for a prefix of the terms is empty, the answer for all terms is empty, so the early return is harmless |
| `IndexSpec.AnswerNoneIff` | inverted_index.py:40-54 | the answer is `None` if and only if the query text is empty or all whitespace |
| `IndexSpec.WriteThenFind` | inverted_index.py:26-59 | after a record is written, any non-empty query made only of its words finds its id |
| `InvertedIndex.SetAndOperation` | inverted_index.py:13-18 | the result is exactly the elements in both sets, their intersection; the arguments are values and are not changed |
| `InvertedIndex.RecordLevelInvertedIndex.constructor` | inverted_index.py:23-24 | a new index is empty |
| `InvertedIndex.RecordLevelInvertedIndex.Write` | inverted_index.py:26-30 | the new index is the old one with `record_id` added to every term of the text, in order; no empty posting set appears |
| `InvertedIndex.RecordLevelInvertedIndex.WriteToIndex` | inverted_index.py:32-35 | the term's posting set is created if missing and gains `record_id`; nothing else changes, and no empty posting set appears |
| `InvertedIndex.RecordLevelInvertedIndex.Search` | inverted_index.py:37-54 | the result is `None` for a query with no terms, otherwise the AND of the postings of all its terms (including after the early return); the index is not modified |

## Left out

- The `if __name__ == '__main__':` demo (inverted_index.py:62-95) is left out. It only writes a sample corpus and prints.
- Python's `str.split()` and `str.strip()` treat every Unicode whitespace character as a separator. The model treats only space, tab, line feed, carriage return, vertical tab and form feed as whitespace.
- `__get_documents` returns the index's own set object, so aliasing is not modelled. `search` copies that set for the first term and only reads it afterwards, so sets as values give the same results.
- Python iterates a set in hash order. The loops here pick an arbitrary element each time, so the results are proved for every order.
- Dictionary and hash performance is not behaviour and is not modelled.
- Record ids are unbounded integers, as Python ints are.
