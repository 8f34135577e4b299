/**
 The citation step of the chatbot's `ask` and the stop test of its chat loop.

 `ask` receives the language model's answer and the retrieved source documents.
 When the answer is a refusal ("don't know") it cites nothing; otherwise it walks
 the documents in order, turns each into the key `(basename(source), page)` and
 keeps every key the first time it is seen.
 */
module RagChatbot {
  import opened PyStrings
  import opened StableDedup

  datatype Option<T> = None | Some(value: T)

  /** A metadata value as the vector store keeps it: text or a whole number. */
  datatype MetaValue = Text(text: string) | Number(n: int)

  /**
   A retrieved document, seen through the two metadata entries `ask` reads:
   `source` and `page`, each `None` when the metadata has no such key.
   */
  datatype Document = Document(source: Option<MetaValue>, page: Option<MetaValue>)

  /** A citation `(name, page)`: the file name of the document's source and its page. */
  datatype Citation = Citation(name: string, page: MetaValue)

  /** What `ask` hands back: the answer with its citations, or the TypeError that stops it. */
  datatype Reply =
    | Answered(answer: string, citations: seq<Citation>)
      /**
       `os.path.basename` was given the non-text `source` of the document at
       `index`; `printed` are the citations already printed before it.
       */
    | SourceTypeError(index: nat, printed: seq<Citation>)

  /** The answer declines to answer; `ask` tests both phrasings. */
  predicate IsRefusal(answer: string) {
    Contains(answer, "I don't know") || Contains(answer, "don't know")
  }

  /** The first phrasing of the refusal test adds nothing: it is a special case of the second. */
  lemma RefusalIsDontKnow(answer: string)
    ensures IsRefusal(answer) <==> Contains(answer, "don't know")
  {
    if Contains(answer, "I don't know") {
      var i :| OccursAt(answer, "I don't know", i);
      assert answer[i + 2..i + 12] == answer[i..i + 12][2..];
      assert OccursAt(answer, "don't know", i + 2);
    }
  }

  /** `os.path.basename` accepts the document's source: it is absent or text. */
  predicate HasTextSource(d: Document) {
    d.source.Some? ==> d.source.value.Text?
  }

  /**
   The key `ask` builds for a document: the basename of its "source" ("" when
   there is none) and its "page" ("?" when there is none).
   */
  function Key(d: Document): (c: Citation)
    requires HasTextSource(d)
    ensures '/' !in c.name
    ensures d.source.None? ==> c.name == ""
    ensures d.page.None? ==> c.page == Text("?")
    ensures d.page.Some? ==> c.page == d.page.value
  {
    var source := if d.source.Some? then d.source.value.text else "";
    var page := if d.page.Some? then d.page.value else Text("?");
    Citation(Basename(source), page)
  }

  /** The index of the first document whose source is not text, if any. */
  function FirstBadSource(docs: seq<Document>): (r: Option<nat>)
    ensures r.None? <==> forall k :: 0 <= k < |docs| ==> HasTextSource(docs[k])
    ensures r.Some? ==> r.value < |docs| && !HasTextSource(docs[r.value])
    ensures r.Some? ==> forall k :: 0 <= k < r.value ==> HasTextSource(docs[k])
  {
    if |docs| == 0 then None
    else if !HasTextSource(docs[0]) then Some(0)
    else
      match FirstBadSource(docs[1..])
      case None => None
      case Some(i) => Some(i + 1)
  }

  /** The keys of all documents, in document order. */
  function Keys(docs: seq<Document>): (r: seq<Citation>)
    requires forall k :: 0 <= k < |docs| ==> HasTextSource(docs[k])
    ensures |r| == |docs|
  {
    if |docs| == 0 then [] else Keys(docs[..|docs| - 1]) + [Key(docs[|docs| - 1])]
  }

  /** The key at each position is the key of the document at that position. */
  lemma {:induction false} KeysAt(docs: seq<Document>)
    requires forall k :: 0 <= k < |docs| ==> HasTextSource(docs[k])
    ensures forall k :: 0 <= k < |docs| ==> Keys(docs)[k] == Key(docs[k])
  {
    if |docs| > 0 {
      var p := docs[..|docs| - 1];
      KeysAt(p);
      assert forall k :: 0 <= k < |p| ==> p[k] == docs[k];
    }
  }

  /** Taking one more document adds its key at the end. */
  lemma KeysStep(docs: seq<Document>, i: nat)
    requires i < |docs|
    requires forall k :: 0 <= k <= i ==> HasTextSource(docs[k])
    ensures Keys(docs[..i + 1]) == Keys(docs[..i]) + [Key(docs[i])]
  {
    assert docs[..i + 1][..i] == docs[..i];
  }

  /** The three outcomes of ExpectedReply, one per case of its definition. */
  lemma ReplyCases(answer: string, docs: seq<Document>)
    ensures IsRefusal(answer) ==> ExpectedReply(answer, docs) == Answered(answer, [])
    ensures !IsRefusal(answer) && FirstBadSource(docs).None? ==> ExpectedReply(answer, docs) == Answered(answer, Dedup(Keys(docs)))
    ensures !IsRefusal(answer) && FirstBadSource(docs).Some? ==>
              var i := FirstBadSource(docs).value;
              ExpectedReply(answer, docs) == SourceTypeError(i, Dedup(Keys(docs[..i])))
    ensures ExpectedReply(answer, docs).Answered? && !IsRefusal(answer) ==> FirstBadSource(docs).None?
  {
  }

  /** A key among the keys of the documents is the key of one of them. */
  lemma KeyOfSomeDocument(docs: seq<Document>, c: Citation)
    requires forall k :: 0 <= k < |docs| ==> HasTextSource(docs[k])
    requires c in Keys(docs)
    ensures exists k :: 0 <= k < |docs| && HasTextSource(docs[k]) && Key(docs[k]) == c
  {
    var keys := Keys(docs);
    KeysAt(docs);
    var k :| 0 <= k < |keys| && keys[k] == c;
  }

  /** What `ask` returns for an answer and its retrieved source documents. */
  function ExpectedReply(answer: string, docs: seq<Document>): Reply {
    if IsRefusal(answer) then Answered(answer, [])
    else
      match FirstBadSource(docs)
      case Some(i) =>
        assert forall k :: 0 <= k < i ==> docs[..i][k] == docs[k];
        SourceTypeError(i, Dedup(Keys(docs[..i])))
      case None => Answered(answer, Dedup(Keys(docs)))
  }

  /**
   The citation step of `ask`: an early exit on a refusal, then one pass over
   the documents with a `seen` set, appending each key not seen before.
   */
  method Ask(answer: string, sourceDocuments: seq<Document>) returns (r: Reply)
    ensures r == ExpectedReply(answer, sourceDocuments)
  {
    if Contains(answer, "I don't know") || Contains(answer, "don't know") {
      ReplyCases(answer, sourceDocuments);
      return Answered(answer, []);
    }
    var seen: set<Citation> := {};
    var citations: seq<Citation> := [];
    ghost var keys: seq<Citation> := [];
    for i := 0 to |sourceDocuments|
      invariant forall k :: 0 <= k < i ==> HasTextSource(sourceDocuments[k])
      invariant keys == Keys(sourceDocuments[..i])
      invariant citations == Dedup(keys)
      invariant forall c :: c in seen <==> c in citations
    {
      var doc := sourceDocuments[i];
      if !HasTextSource(doc) {
        ReplyCases(answer, sourceDocuments);
        return SourceTypeError(i, citations);
      }
      var key := Key(doc);
      DedupAppend(keys, key);
      KeysStep(sourceDocuments, i);
      keys := keys + [key];
      if key !in seen {
        seen := seen + {key};
        citations := citations + [key];
      }
    }
    assert sourceDocuments[..|sourceDocuments|] == sourceDocuments;
    ReplyCases(answer, sourceDocuments);
    return Answered(answer, citations);
  }

  /**
   A refusal cites nothing, whatever was retrieved; and an answer that is not a
   refusal cites nothing only when nothing was retrieved.
   */
  lemma NoCitationsExactlyWhen(answer: string, docs: seq<Document>)
    ensures ExpectedReply(answer, docs) == Answered(answer, [])
            <==> Contains(answer, "don't know") || docs == []
  {
    RefusalIsDontKnow(answer);
    if !IsRefusal(answer) && docs != [] && FirstBadSource(docs).None? {
      DedupElements(Keys(docs));
      assert Keys(docs)[0] in Dedup(Keys(docs));
    }
  }

  /** Every citation is the key of one of the retrieved documents. */
  lemma CitationsComeFromDocuments(answer: string, docs: seq<Document>, c: Citation)
    requires ExpectedReply(answer, docs).Answered?
    requires c in ExpectedReply(answer, docs).citations
    ensures exists k :: 0 <= k < |docs| && HasTextSource(docs[k]) && Key(docs[k]) == c
  {
    ReplyCases(answer, docs);
    KeyOfSomeDocument(docs, c);
  }

  /**
   When the answer is not a refusal and every source is text, each distinct key
   among the documents is cited exactly once: all of them appear, none twice,
   and there are as many citations as distinct keys.
   */
  lemma EveryKeyCitedOnce(answer: string, docs: seq<Document>)
    requires !Contains(answer, "don't know")
    requires forall k :: 0 <= k < |docs| ==> HasTextSource(docs[k])
    ensures ExpectedReply(answer, docs).Answered?
    ensures forall k :: 0 <= k < |docs| ==> Key(docs[k]) in ExpectedReply(answer, docs).citations
    ensures NoDuplicates(ExpectedReply(answer, docs).citations)
    ensures |ExpectedReply(answer, docs).citations| == |Elements(Keys(docs))|
  {
    RefusalIsDontKnow(answer);
    ReplyCases(answer, docs);
    var keys := Keys(docs);
    var cites := Dedup(keys);
    assert ExpectedReply(answer, docs) == Answered(answer, cites);
    DedupElements(keys);
    KeysAt(docs);
    forall k | 0 <= k < |docs| ensures Key(docs[k]) in cites {
      assert keys[k] == Key(docs[k]);
    }
    DedupCardinality(keys);
  }

  /** Citations come in the order in which their keys first occur among the documents. */
  lemma CitationsInFirstSeenOrder(answer: string, docs: seq<Document>)
    requires forall k :: 0 <= k < |docs| ==> HasTextSource(docs[k])
    ensures ExpectedReply(answer, docs).Answered?
    ensures FirstSeenOrdered(ExpectedReply(answer, docs).citations, Keys(docs))
  {
    ReplyCases(answer, docs);
    DedupFirstSeenOrder(Keys(docs));
  }

  /** No citation carries a '/', there are at most as many citations as documents, and none repeats. */
  lemma CitationsShape(answer: string, docs: seq<Document>)
    requires ExpectedReply(answer, docs).Answered?
    ensures forall c :: c in ExpectedReply(answer, docs).citations ==> '/' !in c.name
    ensures |ExpectedReply(answer, docs).citations| <= |docs|
    ensures NoDuplicates(ExpectedReply(answer, docs).citations)
  {
    forall c | c in ExpectedReply(answer, docs).citations ensures '/' !in c.name {
      CitationsComeFromDocuments(answer, docs, c);
    }
  }

  /**
   `ask` fails exactly when the answer is not a refusal and some source is not
   text, and then at the first such document.
   */
  lemma SourceTypeErrorExactlyWhen(answer: string, docs: seq<Document>)
    ensures ExpectedReply(answer, docs).SourceTypeError?
            <==> !Contains(answer, "don't know") && exists k :: 0 <= k < |docs| && !HasTextSource(docs[k])
    ensures ExpectedReply(answer, docs).SourceTypeError? ==>
            var i := ExpectedReply(answer, docs).index;
            i < |docs| && !HasTextSource(docs[i]) && forall k :: 0 <= k < i ==> HasTextSource(docs[k])
    ensures ExpectedReply(answer, docs).SourceTypeError? ==>
            var e := ExpectedReply(answer, docs);
            e.index <= |docs| && ExpectedReply(answer, docs[..e.index]) == Answered(answer, e.printed)
  {
    RefusalIsDontKnow(answer);
  }

  /** Running the citation step again on its own output changes nothing. */
  lemma CitationsStable(answer: string, docs: seq<Document>)
    requires ExpectedReply(answer, docs).Answered?
    ensures Dedup(ExpectedReply(answer, docs).citations) == ExpectedReply(answer, docs).citations
  {
    DedupOfDistinct(ExpectedReply(answer, docs).citations);
  }

  /** A document whose source is `dir/name` is cited under `name`. */
  lemma KeyOfJoinedPath(dir: string, name: string, page: MetaValue)
    requires '/' !in name
    ensures Key(Document(Some(Text(dir + "/" + name)), Some(page))) == Citation(name, page)
  {
    BasenameOfJoin(dir, name);
  }

  /**
   Two documents with the same key give one citation, at the position of the
   first, and a document without metadata is cited as ("", "?").
   */
  lemma SameKeyTwiceCitedOnce(answer: string, d1: Document, d2: Document)
    requires !Contains(answer, "don't know")
    requires HasTextSource(d1) && HasTextSource(d2) && Key(d1) == Key(d2) && Key(d1).name != ""
    ensures ExpectedReply(answer, [d1, d2, Document(None, None)])
            == Answered(answer, [Key(d1), Citation("", Text("?"))])
  {
    var docs := [d1, d2, Document(None, None)];
    var k1, k2 := Key(d1), Citation("", Text("?"));
    KeysOfThree(docs);
    DedupRepeatThenNew(k1, k2);
    RefusalIsDontKnow(answer);
    ReplyCases(answer, docs);
  }

  /** The keys of three documents, one per document. */
  lemma KeysOfThree(docs: seq<Document>)
    requires |docs| == 3 && forall k :: 0 <= k < 3 ==> HasTextSource(docs[k])
    ensures Keys(docs) == [Key(docs[0]), Key(docs[1]), Key(docs[2])]
  {
    var keys := Keys(docs);
    KeysAt(docs);
    assert keys[0] == Key(docs[0]) && keys[1] == Key(docs[1]) && keys[2] == Key(docs[2]);
  }

  /** A refusal cites nothing even when documents were retrieved. */
  lemma RefusalExample()
    ensures ExpectedReply("Sorry, I don't know.", [Document(Some(Text("docs/a.pdf")), Some(Number(1)))])
            == Answered("Sorry, I don't know.", [])
  {
    assert OccursAt("Sorry, I don't know.", "I don't know", 7);
  }

  /** The chat loop's stop test: the input, lower-cased and stripped, is "exit" or "quit". */
  predicate IsExitCommand(q: string) {
    IsExitWord(Strip(Lower(q)))
  }

  /** The two words that stop the loop. */
  predicate IsExitWord(w: string) {
    w == "exit" || w == "quit"
  }

  /** An exit word starts and ends with a character that is not whitespace. */
  lemma ExitWordEnds(w: string)
    requires IsExitWord(w)
    ensures |w| == 4 && !IsSpace(w[0]) && !IsSpace(w[3])
  {
  }

  /** Lowering commutes with slicing and leaves whitespace where it was. */
  lemma LowerSliceAndPadding(q: string, i: int, j: int)
    requires 0 <= i <= j <= |q|
    ensures Lower(q)[i..j] == Lower(q[i..j])
    ensures IsPadding(Lower(q), i, j) <==> IsPadding(q, i, j)
  {
    var lq := Lower(q);
    forall k | 0 <= k < |q| ensures IsSpace(lq[k]) == IsSpace(q[k]) {
      LowerKeepsSpace(q[k]);
    }
  }

  /** Case and surrounding whitespace do not matter to the stop test. */
  lemma PaddedQuitStops()
    ensures IsExitCommand("\tQUIT  ")
  {
    var q := "\tQUIT  ";
    assert q[1..5] == "QUIT";
    assert Lower("QUIT") == "quit";
    assert IsPadding(q, 1, 5);
    ExitCommandMeaning(q);
  }

  /** Text besides the command word keeps the loop going. */
  lemma ExitWithMoreTextContinues()
    ensures !IsExitCommand("exit now")
  {
    var lq := Lower("exit now");
    assert |lq| == 8 && lq[0] == 'e' && lq[7] == 'w';
    StripUnique(lq, 0, 8);
    assert lq[0..8] == lq;
  }

  /**
   The stop test accepts exactly the inputs that are "exit" or "quit" in any
   mix of ASCII case, with any whitespace around them.
   */
  lemma ExitCommandMeaning(q: string)
    ensures IsExitCommand(q) <==> exists i, j :: IsPadding(q, i, j) && IsExitWord(Lower(q[i..j]))
  {
    if IsExitCommand(q) {
      var i, j := ExitCommandSplit(q);
    }
    if exists i, j :: IsPadding(q, i, j) && IsExitWord(Lower(q[i..j])) {
      var i, j :| IsPadding(q, i, j) && IsExitWord(Lower(q[i..j]));
      ExitWordPadded(q, i, j);
    }
  }

  /** An exit command splits into whitespace, an exit word and whitespace. */
  lemma ExitCommandSplit(q: string) returns (i: int, j: int)
    requires IsExitCommand(q)
    ensures IsPadding(q, i, j) && IsExitWord(Lower(q[i..j]))
  {
    i, j := StripBounds(Lower(q));
    LowerSliceAndPadding(q, i, j);
  }

  /** An exit word with whitespace around it is an exit command. */
  lemma ExitWordPadded(q: string, i: int, j: int)
    requires IsPadding(q, i, j) && IsExitWord(Lower(q[i..j]))
    ensures IsExitCommand(q)
  {
    var lq := Lower(q);
    LowerSliceAndPadding(q, i, j);
    var w := Lower(q[i..j]);
    ExitWordEnds(w);
    assert lq[i] == w[0] && lq[j - 1] == w[3];
    StripUnique(lq, i, j);
  }

  /**
   One turn of the chat loop: the line read, and what the question-answering
   chain returns for it (the chain itself is not modelled).
   */
  datatype Turn = Turn(question: string, answer: string, sourceDocuments: seq<Document>)

  /** How the chat loop ends: an exit command, input running out, or `ask` raising. */
  datatype ChatEnd = ExitCommand | InputExhausted | AskRaised(error: Reply)

  /**
   The chat loop: each line that is not an exit command is passed to `ask`.
   `replies` holds what `ask` returned for the questions it answered; an
   exception from `ask` is not caught and ends the loop.
   */
  method ChatLoop(turns: seq<Turn>) returns (replies: seq<Reply>, end: ChatEnd)
    ensures |replies| <= |turns|
    ensures forall k :: 0 <= k < |replies| ==>
              && !IsExitCommand(turns[k].question)
              && replies[k] == ExpectedReply(turns[k].answer, turns[k].sourceDocuments)
              && replies[k].Answered?
    ensures end == InputExhausted <==> |replies| == |turns|
    ensures end == ExitCommand ==> IsExitCommand(turns[|replies|].question)
    ensures end.AskRaised? ==>
              var t := turns[|replies|];
              && !IsExitCommand(t.question)
              && end.error == ExpectedReply(t.answer, t.sourceDocuments)
              && end.error.SourceTypeError?
  {
    replies := [];
    var n := 0;
    while n < |turns|
      invariant n <= |turns| && |replies| == n
      invariant forall k :: 0 <= k < n ==>
                  && !IsExitCommand(turns[k].question)
                  && replies[k] == ExpectedReply(turns[k].answer, turns[k].sourceDocuments)
                  && replies[k].Answered?
    {
      var t := turns[n];
      if IsExitCommand(t.question) {
        return replies, ExitCommand;
      }
      var r := Ask(t.answer, t.sourceDocuments);
      if r.SourceTypeError? {
        return replies, AskRaised(r);
      }
      replies := replies + [r];
      n := n + 1;
    }
    return replies, InputExhausted;
  }
}
