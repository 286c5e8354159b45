/**
 * The retrieval-augmented question answering pipeline, minus its machine
 * learning: the text normaliser applied to every document, the loading of
 * the downloaded `.txt` files with their topic, the numbering of the points
 * sent to the vector store, and the prompt and answer strings around the
 * language model. Embeddings, the vector store and the model itself are
 * outside the model; the model's output is a parameter.
 */
module Rag {
  import opened Text
  import opened PosixPath

  // ---------------------------------------------------------------------------
  // Text normalisation (process_text)
  // ---------------------------------------------------------------------------

  /** Python's `string.punctuation`: the 32 ASCII punctuation characters. */
  const Punctuation: set<char> := {
    '!', '"', '#', '$', '%', '&', '\'', '(', ')', '*', '+', ',', '-', '.', '/',
    ':', ';', '<', '=', '>', '?', '@', '[', '\\', ']', '^', '_', '`', '{', '|', '}', '~'}

  /** The ASCII capital letters. */
  const Uppercase: set<char> := set c: char | 'A' <= c <= 'Z'

  function LowerChar(c: char): char
  {
    if 'A' <= c <= 'Z' then (c as int + 32) as char else c
  }

  /** `s.lower()` on ASCII: each capital letter becomes its small letter, every other character is kept. */
  function Lower(s: string): (r: string)
    ensures |r| == |s| && NoneIn(r, Uppercase)
    ensures forall i :: 0 <= i < |s| && s[i] !in Uppercase ==> r[i] == s[i]
    ensures forall i :: 0 <= i < |s| && s[i] in Uppercase ==> r[i] as int == s[i] as int + 32
  {
    if s == [] then []
    else
      var rest := Lower(s[1..]);
      assert forall i :: 1 <= i < |s| ==> ([LowerChar(s[0])] + rest)[i] == rest[i - 1];
      [LowerChar(s[0])] + rest
  }

  /** Lowering a string without capitals changes nothing. */
  lemma LowerNoOp(s: string)
    requires NoneIn(s, Uppercase)
    ensures Lower(s) == s
  {
  }

  /** `s.translate(str.maketrans('', '', string.punctuation))`: `s` with every punctuation character deleted. */
  function RemovePunctuation(s: string): (r: string)
    ensures NoneIn(r, Punctuation)
    ensures forall c :: c !in Punctuation ==> multiset(r)[c] == multiset(s)[c]
    ensures SubsequenceOf(r, s)
  {
    if s == [] then []
    else
      var rest := RemovePunctuation(s[1..]);
      assert s == [s[0]] + s[1..];
      var r := (if s[0] in Punctuation then [] else [s[0]]) + rest;
      assert SubsequenceOf(r, s) by {
        if s[0] in Punctuation {
          assert r == rest;
          assert rest == [] || rest[0] != s[0] by {
            if rest != [] {
              assert rest[0] !in Punctuation;
            }
          }
          SubsequenceSkip(rest, s[0], s[1..]);
        } else {
          assert r == [s[0]] + rest;
          SubsequenceKeep(s[0], rest, s[1..]);
        }
      }
      assert multiset(s) == multiset{s[0]} + multiset(s[1..]);
      assert multiset(r) == multiset(if s[0] in Punctuation then [] else [s[0]]) + multiset(rest);
      assert NoneIn(r, Punctuation) by {
        forall i | 0 <= i < |r| ensures r[i] !in Punctuation {
          if s[0] !in Punctuation && i > 0 {
            assert r[i] == rest[i - 1];
          }
        }
      }
      r
  }

  /** Deleting punctuation from a string without punctuation changes nothing. */
  lemma {:induction false} RemovePunctuationNoOp(s: string)
    requires NoneIn(s, Punctuation)
    ensures RemovePunctuation(s) == s
  {
    if s != [] {
      RemovePunctuationNoOp(s[1..]);
      assert s == [s[0]] + s[1..];
    }
  }

  /** Deleting characters introduces none: a string free of `bad` stays free of it. */
  lemma {:induction false} RemovePunctuationNoneIn(s: string, bad: set<char>)
    requires NoneIn(s, bad)
    ensures NoneIn(RemovePunctuation(s), bad)
  {
    if s != [] {
      RemovePunctuationNoneIn(s[1..], bad);
      var rest := RemovePunctuation(s[1..]);
      var r := RemovePunctuation(s);
      assert r == (if s[0] in Punctuation then [] else [s[0]]) + rest;
      forall i | 0 <= i < |r| ensures r[i] !in bad {
        if s[0] !in Punctuation && i > 0 {
          assert r[i] == rest[i - 1];
        }
      }
    }
  }

  /**
   * `a` occurs in `b` with its elements in order, possibly with gaps: each
   * element of `a` is matched with the earliest remaining equal element of `b`.
   */
  predicate SubsequenceOf<T(==)>(a: seq<T>, b: seq<T>)
    decreases |b|
  {
    if a == [] then true
    else if b == [] then false
    else if a[0] == b[0] then SubsequenceOf(a[1..], b[1..])
    else SubsequenceOf(a, b[1..])
  }

  /** Matching an equal first element keeps a subsequence a subsequence. */
  lemma SubsequenceKeep<T>(x: T, a: seq<T>, b: seq<T>)
    requires SubsequenceOf(a, b)
    ensures SubsequenceOf([x] + a, [x] + b)
  {
    assert ([x] + a)[1..] == a && ([x] + b)[1..] == b;
  }

  /** An element of `b` that cannot start `a` may be skipped. */
  lemma SubsequenceSkip<T>(a: seq<T>, x: T, b: seq<T>)
    requires SubsequenceOf(a, b) && (a == [] || a[0] != x)
    ensures SubsequenceOf(a, [x] + b)
  {
    assert ([x] + b)[1..] == b;
  }

  /** `[word for word in tokens if word not in stopwords]`. */
  function DropStopwords(tokens: seq<string>, stopwords: set<string>): (kept: seq<string>)
    ensures forall w :: w in kept <==> w in tokens && w !in stopwords
    ensures forall w :: w !in stopwords ==> multiset(kept)[w] == multiset(tokens)[w]
  {
    if tokens == [] then []
    else
      var rest := DropStopwords(tokens[1..], stopwords);
      assert forall w :: w in tokens <==> w == tokens[0] || w in tokens[1..];
      var head := if tokens[0] in stopwords then [] else [tokens[0]];
      assert tokens == [tokens[0]] + tokens[1..];
      assert multiset(tokens) == multiset{tokens[0]} + multiset(tokens[1..]);
      assert multiset(head + rest) == multiset(head) + multiset(rest);
      head + rest
  }

  /** The kept tokens are the original tokens in their original order, with gaps. */
  lemma {:induction false} DropStopwordsSubsequence(tokens: seq<string>, stopwords: set<string>)
    ensures SubsequenceOf(DropStopwords(tokens, stopwords), tokens)
  {
    if tokens != [] {
      var kept := DropStopwords(tokens, stopwords);
      var rest := DropStopwords(tokens[1..], stopwords);
      DropStopwordsSubsequence(tokens[1..], stopwords);
      if tokens[0] !in stopwords {
        assert kept == [tokens[0]] + rest;
        assert kept[1..] == rest;
      } else if kept != [] {
        assert kept == rest;
        assert kept[0] in kept;
      }
    }
  }

  /** Tokens none of which is a stop-word are all kept. */
  lemma {:induction false} DropStopwordsNoOp(tokens: seq<string>, stopwords: set<string>)
    requires forall k :: 0 <= k < |tokens| ==> tokens[k] !in stopwords
    ensures DropStopwords(tokens, stopwords) == tokens
  {
    if tokens != [] {
      DropStopwordsNoOp(tokens[1..], stopwords);
      assert tokens == [tokens[0]] + tokens[1..];
    }
  }

  /** The whitespace-separated tokens of the lowercased, punctuation-free text. */
  function Tokens(text: string): seq<string>
  {
    Words(RemovePunctuation(Lower(text)))
  }

  /** `process_text(text)`, with the stop-word list as a parameter. */
  function ProcessText(text: string, stopwords: set<string>): string
  {
    JoinWith(" ", DropStopwords(Tokens(text), stopwords))
  }

  /** The processed text has no capital letter and no punctuation. */
  lemma ProcessTextAlphabet(text: string, stopwords: set<string>)
    ensures NoneIn(ProcessText(text, stopwords), Uppercase)
    ensures NoneIn(ProcessText(text, stopwords), Punctuation)
  {
    var lowered := Lower(text);
    var clean := RemovePunctuation(lowered);
    RemovePunctuationNoneIn(lowered, Uppercase);
    CleanAlphabet(clean);
    SpaceIsClean();
    KeptWordsNoneIn(clean, stopwords, Uppercase + Punctuation);
    NoneInSplit(ProcessText(text, stopwords), Uppercase, Punctuation);
  }

  lemma CleanAlphabet(clean: string)
    requires NoneIn(clean, Uppercase) && NoneIn(clean, Punctuation)
    ensures NoneIn(clean, Uppercase + Punctuation)
  {
  }

  /** The space that joins the tokens is neither a capital nor punctuation. */
  lemma SpaceIsClean()
    ensures ' ' !in Uppercase + Punctuation
  {
    assert ' ' !in Uppercase;
  }

  lemma NoneInSplit(r: string, a: set<char>, b: set<char>)
    requires NoneIn(r, a + b)
    ensures NoneIn(r, a) && NoneIn(r, b)
  {
  }

  /** Joining the kept words of a string free of `bad` gives a string free of `bad`, if a space is not in `bad`. */
  lemma KeptWordsNoneIn(clean: string, stopwords: set<string>, bad: set<char>)
    requires NoneIn(clean, bad) && ' ' !in bad
    ensures NoneIn(JoinWith(" ", DropStopwords(Words(clean), stopwords)), bad)
  {
    var ws := Words(clean);
    var kept := DropStopwords(ws, stopwords);
    WordsNoneIn(clean, bad);
    forall k | 0 <= k < |kept| ensures NoneIn(kept[k], bad) {
      assert kept[k] in ws;
    }
    JoinWithNoneIn(" ", kept, bad);
  }

  /** The kept words are non-empty, hold no whitespace and are not stop-words. */
  lemma KeptWordsAreWords(ws: seq<string>, stopwords: set<string>, kept: seq<string>)
    requires forall k :: 0 <= k < |ws| ==> ws[k] != [] && NoSpace(ws[k])
    requires kept == DropStopwords(ws, stopwords)
    ensures forall k :: 0 <= k < |kept| ==> kept[k] != [] && NoSpace(kept[k]) && kept[k] !in stopwords
  {
    forall k | 0 <= k < |kept| ensures kept[k] != [] && NoSpace(kept[k]) && kept[k] !in stopwords {
      assert kept[k] in ws;
    }
  }

  /**
   * The tokens of the processed text are the input's tokens minus the
   * stop-words, in their original order.
   */
  lemma ProcessTextTokens(text: string, stopwords: set<string>)
    ensures Words(ProcessText(text, stopwords)) == DropStopwords(Tokens(text), stopwords)
    ensures forall w :: w in Words(ProcessText(text, stopwords)) ==> w !in stopwords
    ensures SubsequenceOf(Words(ProcessText(text, stopwords)), Tokens(text))
  {
    var tokens := Tokens(text);
    var kept := DropStopwords(tokens, stopwords);
    KeptWordsAreWords(tokens, stopwords, kept);
    WordsJoin(kept);
    DropStopwordsSubsequence(tokens, stopwords);
  }

  /**
   * The processed text is its tokens separated by single spaces, with no
   * whitespace at either end; it is empty exactly when no token survives.
   */
  lemma ProcessTextSpacing(text: string, stopwords: set<string>)
    ensures ProcessText(text, stopwords) == JoinWith(" ", Words(ProcessText(text, stopwords)))
    ensures ProcessText(text, stopwords) == [] <==> DropStopwords(Tokens(text), stopwords) == []
    ensures var r := ProcessText(text, stopwords); r == [] || (!IsSpace(r[0]) && !IsSpace(r[|r| - 1]))
  {
    var tokens := Tokens(text);
    var kept := DropStopwords(tokens, stopwords);
    KeptWordsAreWords(tokens, stopwords, kept);
    WordsJoin(kept);
    JoinWithEnds(" ", kept);
    if kept != [] {
      WordEnds(kept[0]);
      WordEnds(kept[|kept| - 1]);
    }
  }

  lemma WordEnds(w: string)
    requires w != [] && NoSpace(w)
    ensures !IsSpace(w[0]) && !IsSpace(w[|w| - 1])
  {
  }

  /** Processing a processed text changes nothing. */
  lemma ProcessTextIdempotent(text: string, stopwords: set<string>)
    ensures ProcessText(ProcessText(text, stopwords), stopwords) == ProcessText(text, stopwords)
  {
    var r := ProcessText(text, stopwords);
    ProcessTextAlphabet(text, stopwords);
    ProcessTextTokens(text, stopwords);
    LowerNoOp(r);
    RemovePunctuationNoOp(r);
    assert Tokens(r) == Words(r);
    DropStopwordsNoOp(Words(r), stopwords);
  }

  /** The processed text is a single line. */
  lemma ProcessTextOneLine(text: string, stopwords: set<string>)
    ensures NoneIn(ProcessText(text, stopwords), {'\n'})
  {
    var tokens := Tokens(text);
    var kept := DropStopwords(tokens, stopwords);
    KeptWordsAreWords(tokens, stopwords, kept);
    forall k | 0 <= k < |kept| ensures NoneIn(kept[k], {'\n'}) {
      NoSpaceOneLine(kept[k]);
    }
    JoinWithNoneIn(" ", kept, {'\n'});
  }

  lemma NoSpaceOneLine(w: string)
    requires NoSpace(w)
    ensures NoneIn(w, {'\n'})
  {
    forall i | 0 <= i < |w| ensures w[i] != '\n' {
      assert !IsSpace(w[i]);
    }
  }

  // ---------------------------------------------------------------------------
  // Loading the downloaded files (load_documents)
  // ---------------------------------------------------------------------------

  /** A loaded document, which is also the payload stored with its point. */
  datatype Doc = Doc(topic: string, fileName: string, text: string)

  /** One directory visited by `os.walk`: its path and the names of the files directly in it. */
  datatype WalkEntry = WalkEntry(root: string, files: seq<string>)

  /** The document made from the file `name` in directory `root`, whose contents `read` returns. */
  function LoadFile(root: string, name: string, read: string -> string, stopwords: set<string>): Doc
  {
    var path := PathJoin(root, name);
    Doc(Basename(Dirname(path)), name, ProcessText(read(path), stopwords))
  }

  predicate IsTxt(name: string)
  {
    EndsWith(name, ".txt")
  }

  /** The documents `load` makes from the `.txt` names among `files`, in listing order. */
  function TxtDocs(files: seq<string>, load: string -> Doc): seq<Doc>
  {
    if files == [] then []
    else
      var name := files[|files| - 1];
      TxtDocs(files[..|files| - 1], load) + (if IsTxt(name) then [load(name)] else [])
  }

  /** How the files of the directory `root` are loaded. */
  function Loader(root: string, read: string -> string, stopwords: set<string>): string -> Doc
  {
    name => LoadFile(root, name, read, stopwords)
  }

  /** The documents of a whole walk, directory after directory. */
  function WalkDocs(walk: seq<WalkEntry>, read: string -> string, stopwords: set<string>): seq<Doc>
  {
    if walk == [] then []
    else
      var e := walk[|walk| - 1];
      WalkDocs(walk[..|walk| - 1], read, stopwords) + TxtDocs(e.files, Loader(e.root, read, stopwords))
  }

  /** `load_documents(directory)`, given the walk of `directory` and the file contents. */
  method LoadDocuments(walk: seq<WalkEntry>, read: string -> string, stopwords: set<string>) returns (docs: seq<Doc>)
    ensures docs == WalkDocs(walk, read, stopwords)
  {
    docs := [];
    var i := 0;
    while i < |walk|
      invariant 0 <= i <= |walk|
      invariant docs == WalkDocs(walk[..i], read, stopwords)
    {
      var root, files := walk[i].root, walk[i].files;
      ghost var load := Loader(root, read, stopwords);
      ghost var before := docs;
      var j := 0;
      while j < |files|
        invariant 0 <= j <= |files|
        invariant docs == before + TxtDocs(files[..j], load)
      {
        var file := files[j];
        ghost var prev := docs;
        if EndsWith(file, ".txt") {
          var doc := ReadDocument(root, file, read, stopwords, load);
          docs := docs + [doc];
        }
        AppendStep(before, files, j, load, prev, docs);
        j := j + 1;
      }
      assert files[..j] == files;
      WalkDocsSnoc(walk, i, read, stopwords);
      i := i + 1;
    }
    assert walk[..i] == walk;
  }

  /** The document of one `.txt` file: its topic, its name and its processed contents. */
  method ReadDocument(root: string, file: string, read: string -> string, stopwords: set<string>, ghost load: string -> Doc)
    returns (doc: Doc)
    requires load == Loader(root, read, stopwords)
    ensures doc == load(file)
    ensures doc.fileName == file && doc.text == ProcessText(read(PathJoin(root, file)), stopwords)
    ensures file != [] && NoneIn(file, {'/'}) ==> doc.topic == Basename(RStripSlashes(root))
  {
    var filePath := PathJoin(root, file);
    var topic := Basename(Dirname(filePath));
    var text := read(filePath);
    var processed := ProcessText(text, stopwords);
    LoaderLoads(root, read, stopwords, file);
    if file != [] && NoneIn(file, {'/'}) {
      ContainingDirectoryName(root, file);
    }
    doc := Doc(topic, file, processed);
  }

  lemma LoaderLoads(root: string, read: string -> string, stopwords: set<string>, name: string)
    ensures Loader(root, read, stopwords)(name)
         == Doc(Basename(Dirname(PathJoin(root, name))), name, ProcessText(read(PathJoin(root, name)), stopwords))
  {
  }

  /** One step of the inner loop: a `.txt` name appends its document, any other name nothing. */
  lemma AppendStep(before: seq<Doc>, files: seq<string>, j: nat, load: string -> Doc, prev: seq<Doc>, docs: seq<Doc>)
    requires j < |files| && prev == before + TxtDocs(files[..j], load)
    requires docs == if IsTxt(files[j]) then prev + [load(files[j])] else prev
    ensures docs == before + TxtDocs(files[..j + 1], load)
  {
    TxtDocsSnoc(files, j, load);
  }

  lemma TxtDocsSnoc(files: seq<string>, j: nat, load: string -> Doc)
    requires j < |files|
    ensures TxtDocs(files[..j + 1], load) == TxtDocs(files[..j], load) + (if IsTxt(files[j]) then [load(files[j])] else [])
  {
    assert files[..j + 1][..j] == files[..j];
  }

  lemma WalkDocsSnoc(walk: seq<WalkEntry>, i: nat, read: string -> string, stopwords: set<string>)
    requires i < |walk|
    ensures WalkDocs(walk[..i + 1], read, stopwords)
         == WalkDocs(walk[..i], read, stopwords) + TxtDocs(walk[i].files, Loader(walk[i].root, read, stopwords))
  {
    assert walk[..i + 1][..i] == walk[..i];
  }

  /** A document is among those of a directory exactly when it is loaded from one of its `.txt` files. */
  lemma {:induction false} TxtDocsMember(files: seq<string>, load: string -> Doc, d: Doc)
    ensures d in TxtDocs(files, load) <==> exists k :: 0 <= k < |files| && IsTxt(files[k]) && d == load(files[k])
  {
    if files != [] {
      var init := files[..|files| - 1];
      TxtDocsMember(init, load, d);
      if exists k :: 0 <= k < |init| && IsTxt(init[k]) && d == load(init[k]) {
        var k :| 0 <= k < |init| && IsTxt(init[k]) && d == load(init[k]);
        assert files[k] == init[k];
      }
      if exists k :: 0 <= k < |files| && IsTxt(files[k]) && d == load(files[k]) {
        var k :| 0 <= k < |files| && IsTxt(files[k]) && d == load(files[k]);
        if k < |init| {
          assert init[k] == files[k];
        }
      }
    }
  }

  /** A document comes from a walk exactly when it comes from one of its directories. */
  lemma {:induction false} WalkDocsMember(walk: seq<WalkEntry>, read: string -> string, stopwords: set<string>, d: Doc)
    ensures d in WalkDocs(walk, read, stopwords)
        <==> exists i :: 0 <= i < |walk| && d in TxtDocs(walk[i].files, Loader(walk[i].root, read, stopwords))
  {
    if walk != [] {
      var init := walk[..|walk| - 1];
      WalkDocsMember(init, read, stopwords, d);
      if exists i :: 0 <= i < |init| && d in TxtDocs(init[i].files, Loader(init[i].root, read, stopwords)) {
        var i :| 0 <= i < |init| && d in TxtDocs(init[i].files, Loader(init[i].root, read, stopwords));
        assert walk[i] == init[i];
      }
      if exists i :: 0 <= i < |walk| && d in TxtDocs(walk[i].files, Loader(walk[i].root, read, stopwords)) {
        var i :| 0 <= i < |walk| && d in TxtDocs(walk[i].files, Loader(walk[i].root, read, stopwords));
        if i < |init| {
          assert init[i] == walk[i];
        }
      }
    }
  }

  /**
   * Every loaded document is a `.txt` file of some directory of the walk,
   * named by its bare file name, with its contents processed.
   */
  lemma LoadedDocsAreTxt(walk: seq<WalkEntry>, read: string -> string, stopwords: set<string>, d: Doc)
    requires d in WalkDocs(walk, read, stopwords)
    ensures exists i, k :: 0 <= i < |walk| && 0 <= k < |walk[i].files| && d.fileName == walk[i].files[k]
                           && IsTxt(d.fileName) && d.text == ProcessText(read(PathJoin(walk[i].root, d.fileName)), stopwords)
  {
    WalkDocsMember(walk, read, stopwords, d);
    var i :| 0 <= i < |walk| && d in TxtDocs(walk[i].files, Loader(walk[i].root, read, stopwords));
    TxtDocsMember(walk[i].files, Loader(walk[i].root, read, stopwords), d);
    var k :| 0 <= k < |walk[i].files| && IsTxt(walk[i].files[k]) && d == Loader(walk[i].root, read, stopwords)(walk[i].files[k]);
    LoaderLoads(walk[i].root, read, stopwords, walk[i].files[k]);
  }

  /** Every `.txt` file of the walk is loaded. */
  lemma TxtFilesAreLoaded(walk: seq<WalkEntry>, read: string -> string, stopwords: set<string>, i: nat, k: nat)
    requires i < |walk| && k < |walk[i].files| && IsTxt(walk[i].files[k])
    ensures LoadFile(walk[i].root, walk[i].files[k], read, stopwords) in WalkDocs(walk, read, stopwords)
  {
    var load := Loader(walk[i].root, read, stopwords);
    var d := load(walk[i].files[k]);
    TxtDocsMember(walk[i].files, load, d);
    WalkDocsMember(walk, read, stopwords, d);
  }

  /**
   * The topic of a file listed by the walk (a bare, non-empty name) is the
   * last component of the directory it was found in.
   */
  lemma TopicIsFolderName(root: string, name: string, read: string -> string, stopwords: set<string>)
    requires name != [] && NoneIn(name, {'/'})
    ensures LoadFile(root, name, read, stopwords).topic == Basename(RStripSlashes(root))
  {
    ContainingDirectoryName(root, name);
  }

  // ---------------------------------------------------------------------------
  // Indexing (index_documents)
  // ---------------------------------------------------------------------------

  /** A point sent to the vector store; its embedding is not modelled. */
  datatype Point = Point(id: nat, payload: Doc)

  /** `index_documents(docs)` up to the upload: one point per document. */
  method IndexDocuments(docs: seq<Doc>) returns (points: seq<Point>)
    ensures |points| == |docs|
    ensures forall i :: 0 <= i < |docs| ==> points[i].id == i && points[i].payload == docs[i]
  {
    points := [];
    var i := 0;
    while i < |docs|
      invariant 0 <= i <= |docs| && |points| == i
      invariant forall k :: 0 <= k < i ==> points[k].id == k && points[k].payload == docs[k]
    {
      var doc := docs[i];
      var point := Point(i, Doc(doc.topic, doc.fileName, doc.text));
      points := points + [point];
      i := i + 1;
    }
  }

  // ---------------------------------------------------------------------------
  // Prompt and answer (generate_response)
  // ---------------------------------------------------------------------------

  /** A search result: the stored point's id and payload (its score is not modelled). */
  datatype Hit = Hit(id: nat, payload: Doc)

  function ContextTexts(hits: seq<Hit>): (texts: seq<string>)
    ensures |texts| == |hits|
    ensures forall i :: 0 <= i < |hits| ==> texts[i] == hits[i].payload.text
  {
    if hits == [] then [] else [hits[0].payload.text] + ContextTexts(hits[1..])
  }

  /** The prompt: the retrieved texts one per line, then the question. */
  function Prompt(texts: seq<string>, query: string): string
  {
    "Contexto:\n" + JoinWith("\n", texts) + "\n\nPregunta: " + query + "\nRespuesta:"
  }

  /** `generated[len(prompt):].strip()`: what the model wrote after the prompt, without surrounding whitespace. */
  function Answer(prompt: string, generated: string): (a: string)
    ensures |generated| <= |prompt| ==> a == []
    ensures a == [] || (!IsSpace(a[0]) && !IsSpace(a[|a| - 1]))
  {
    var start := if |generated| < |prompt| then |generated| else |prompt|;
    Strip(generated[start..])
  }

  /** `generate_response(query, hits)`, with the language model as the function `generate`. */
  function GenerateResponse(query: string, hits: seq<Hit>, generate: string -> string): string
  {
    var prompt := Prompt(ContextTexts(hits), query);
    Answer(prompt, generate(prompt))
  }

  /** The prompt is laid out as the fixed header, the context, the question and the fixed trailer. */
  lemma PromptLayout(texts: seq<string>, query: string)
    ensures var p := Prompt(texts, query); var c := JoinWith("\n", texts);
      && |p| == 10 + |c| + 12 + |query| + 11
      && p[..10] == "Contexto:\n"
      && p[10..10 + |c|] == c
      && p[10 + |c|..22 + |c|] == "\n\nPregunta: "
      && p[22 + |c|..22 + |c| + |query|] == query
      && p[22 + |c| + |query|..] == "\nRespuesta:"
  {
  }

  /** Texts of a single line each can be read back, in retrieval order, from the context block. */
  lemma ContextLinesRecoverable(texts: seq<string>)
    requires |texts| >= 1
    requires forall k :: 0 <= k < |texts| ==> NoneIn(texts[k], {'\n'})
    ensures SplitOn(JoinWith("\n", texts), '\n') == texts
  {
    SplitOnJoin(texts, '\n');
  }

  /** Retrieved processed documents appear in the prompt one per line, in retrieval order. */
  lemma ProcessedContextRecoverable(hits: seq<Hit>, texts: seq<string>, stopwords: set<string>)
    requires |hits| >= 1 && |texts| == |hits|
    requires forall i :: 0 <= i < |hits| ==> hits[i].payload.text == ProcessText(texts[i], stopwords)
    ensures SplitOn(JoinWith("\n", ContextTexts(hits)), '\n') == ContextTexts(hits)
  {
    var ctx := ContextTexts(hits);
    forall k | 0 <= k < |ctx| ensures NoneIn(ctx[k], {'\n'}) {
      ProcessTextOneLine(texts[k], stopwords);
    }
    ContextLinesRecoverable(ctx);
  }

  /** When the model echoes the prompt and continues it, the answer is the stripped continuation. */
  lemma AnswerAfterEcho(prompt: string, continuation: string)
    ensures Answer(prompt, prompt + continuation) == Strip(continuation)
  {
    assert (prompt + continuation)[|prompt|..] == continuation;
  }

  /** The response to a query is the stripped continuation of the prompt built from the hits. */
  lemma GenerateResponseEcho(query: string, hits: seq<Hit>, generate: string -> string, continuation: string)
    requires generate(Prompt(ContextTexts(hits), query)) == Prompt(ContextTexts(hits), query) + continuation
    ensures GenerateResponse(query, hits, generate) == Strip(continuation)
  {
    AnswerAfterEcho(Prompt(ContextTexts(hits), query), continuation);
  }
}
