/**
  The record-level inverted index of inverted_index.py: a class holding one
  map from term to posting set, written record by record and queried with a
  boolean AND over the query's terms.
 */
module InvertedIndex {
  import opened Wrappers
  import opened Tokenizer
  import opened IndexSpec

  /** A non-empty set has an element to pick. */
  lemma NonEmptyHasElement(s: set<int>)
    requires s != {}
    ensures exists x :: x in s
  {
    if forall x :: x !in s {
      assert false;
    }
  }

  /** `set_and_operation`: walks `set2` and keeps the elements also in `set1`,
      which is their intersection; the arguments are values and stay as they are. */
  method SetAndOperation(set1: set<int>, set2: set<int>) returns (result: set<int>)
    ensures result == set1 * set2
  {
    result := {};
    var rest := set2;
    while rest != {}
      invariant rest <= set2
      invariant result == set1 * (set2 - rest)
      decreases rest
    {
      NonEmptyHasElement(rest);
      var element :| element in rest;
      if element in set1 {
        result := result + {element};
      }
      rest := rest - {element};
    }
  }

  class RecordLevelInvertedIndex {
    /** Term -> set of ids of the records whose text holds the term. */
    var index: Index

    /** The invariant every write keeps: no term maps to an empty posting set. */
    predicate Valid()
      reads this
    {
      NoEmptyPostings(index)
    }

    constructor ()
      ensures index == map[] && Valid()
    {
      index := map[];
    }

    /** `write`: adds `recordId` to the postings of every term of `text`. */
    method Write(text: string, recordId: int)
      modifies this
      ensures index == WriteAll(old(index), Tokens(text), recordId)
      ensures old(Valid()) ==> Valid()
    {
      var trimmedWords := Tokens(text);
      for i := 0 to |trimmedWords|
        invariant index == WriteAll(old(index), trimmedWords[..i], recordId)
      {
        WriteToIndex(trimmedWords[i], recordId);
        assert trimmedWords[..i + 1][..i] == trimmedWords[..i];
      }
      assert trimmedWords[..|trimmedWords|] == trimmedWords;
      if old(Valid()) {
        WriteKeepsNoEmptyPostings(old(index), trimmedWords, recordId);
      }
    }

    /** `__write_to_index`: creates the term's posting set when the term is
        new, then adds `recordId` to it. */
    method WriteToIndex(word: string, recordId: int)
      modifies this
      ensures index == AddPosting(old(index), word, recordId)
      ensures old(Valid()) ==> Valid()
    {
      if word !in index {
        index := index[word := {}];
      }
      index := index[word := index[word] + {recordId}];
    }

    /** `search`: `None` for a query without terms, otherwise the AND of the
        postings of all its terms. The running result starts as a copy of the
        first term's postings and is intersected with each later term's; once
        an intersection is empty the answer is returned at once. */
    method Search(term: string) returns (foundDocuments: Option<set<int>>)
      ensures foundDocuments == Answer(index, term)
    {
      var trimmedWords := Tokens(term);
      foundDocuments := None;
      for i := 0 to |trimmedWords|
        invariant i == 0 <==> foundDocuments == None
        invariant i > 0 ==> foundDocuments == Some(AndOfPostings(index, trimmedWords[..i]))
      {
        var trimmedWord := trimmedWords[i];
        if foundDocuments == None {
          // Copy the first term's postings one record at a time.
          var copy := {};
          var documentsWithWord := Postings(index, trimmedWord);
          var rest := documentsWithWord;
          while rest != {}
            invariant rest <= documentsWithWord
            invariant copy == documentsWithWord - rest
            decreases rest
          {
            NonEmptyHasElement(rest);
            var document :| document in rest;
            copy := copy + {document};
            rest := rest - {document};
          }
          foundDocuments := Some(copy);
          AndFirst(index, trimmedWords);
          assert copy == Postings(index, trimmedWords[0]);
          assert foundDocuments == Some(AndOfPostings(index, trimmedWords[..i + 1]));
        } else {
          var documentsWithWord := Postings(index, trimmedWord);
          var result := SetAndOperation(foundDocuments.value, documentsWithWord);
          foundDocuments := Some(result);
          AndNext(index, trimmedWords, i);
          assert foundDocuments == Some(AndOfPostings(index, trimmedWords[..i + 1]));
          if |result| == 0 {
            AndEmptyPrefix(index, trimmedWords, i + 1);
            return;
          }
        }
      }
      assert trimmedWords[..|trimmedWords|] == trimmedWords;
    }
  }
}
