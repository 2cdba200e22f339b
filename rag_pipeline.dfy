/** `RAGPipeline`: one question in, one answer out. The retriever picks the
    documents, they are joined into a context, the context and the question
    fill the prompt template, and the language model answers. The vector
    search and the language model are outside the model: they are the
    functions `search` and `llm` handed to `Run`. */
module RagPipeline {
  import opened Wrappers
  import opened Seqs
  import opened Text
  import opened Documents
  import Retriever

  /** A prompt template: literal text and `{name}` placeholders. */
  datatype Piece = Literal(text: string) | Field(name: string)

  const ContextField: string := "context"
  const QuestionField: string := "question"

  const Preamble: string :=
    "\nYou are an HR policy assistant.\n\nRules:\n- Answer ONLY from the context.\n" +
    "- If policies conflict, prefer the most recent policy.\n- Always cite the policy filename.\n" +
    "- Ignore irrelevant documents.\n\nContext:\n"
  const BeforeQuestion: string := "\n\nQuestion:\n"
  const Closing: string := "\n\nAnswer:\n"

  /** The template built in `__init__`. */
  const Template: seq<Piece> :=
    [Literal(Preamble), Field(ContextField), Literal(BeforeQuestion), Field(QuestionField), Literal(Closing)]

  /** `template.format(**values)`: each placeholder replaced by its value,
      the text of a value not scanned again. A placeholder without a value
      is a `KeyError`, here `None`. */
  function Format(template: seq<Piece>, values: map<string, string>): (r: Option<string>)
    ensures r.Some? <==> forall i :: 0 <= i < |template| && template[i].Field? ==> template[i].name in values
  {
    if template == [] then Some("")
    else
      var rest := Format(template[1..], values);
      match template[0]
      case Literal(text) => if rest.Some? then Some(text + rest.value) else None
      case Field(name) =>
        if name in values && rest.Some? then Some(values[name] + rest.value) else None
  }

  function Values(context: string, question: string): map<string, string> {
    map[ContextField := context, QuestionField := question]
  }

  lemma FormatLiteral(text: string, rest: seq<Piece>, values: map<string, string>)
    requires Format(rest, values).Some?
    ensures Format([Literal(text)] + rest, values) == Some(text + Format(rest, values).value)
  {
    assert ([Literal(text)] + rest)[1..] == rest;
  }

  lemma FormatField(name: string, rest: seq<Piece>, values: map<string, string>)
    requires name in values && Format(rest, values).Some?
    ensures Format([Field(name)] + rest, values) == Some(values[name] + Format(rest, values).value)
  {
    assert ([Field(name)] + rest)[1..] == rest;
  }

  /** A template of two placeholders between three pieces of text. */
  lemma FormatTwoFields(pre: string, first: string, mid: string, second: string, post: string,
                        values: map<string, string>)
    requires first in values && second in values
    ensures Format([Literal(pre), Field(first), Literal(mid), Field(second), Literal(post)], values) ==
            Some(pre + values[first] + mid + values[second] + post)
  {
    var t4: seq<Piece> := [Literal(post)];
    var t3 := [Field(second)] + t4;
    var t2 := [Literal(mid)] + t3;
    var t1 := [Field(first)] + t2;
    assert [Literal(pre), Field(first), Literal(mid), Field(second), Literal(post)] == [Literal(pre)] + t1;
    assert Format([], values) == Some("");
    FormatLiteral(post, [], values);
    assert [Literal(post)] + [] == t4;
    assert post + "" == post;
    FormatField(second, t4, values);
    FormatLiteral(mid, t3, values);
    FormatField(first, t2, values);
    FormatLiteral(pre, t1, values);
    assert pre + (values[first] + (mid + (values[second] + post))) ==
           pre + values[first] + mid + values[second] + post;
  }

  /** Filling the template puts the context and the question, once each,
      between the fixed pieces of text. */
  lemma FillTemplate(context: string, question: string)
    ensures Format(Template, Values(context, question)) ==
            Some(Preamble + context + BeforeQuestion + question + Closing)
  {
    var values := Values(context, question);
    assert values[ContextField] == context && values[QuestionField] == question;
    FormatTwoFields(Preamble, ContextField, BeforeQuestion, QuestionField, Closing, values);
  }

  /** `self.prompt.format(context=context, question=question)` */
  function Prompt(context: string, question: string): (r: string)
    ensures r == Preamble + context + BeforeQuestion + question + Closing
  {
    FillTemplate(context, question);
    Format(Template, Values(context, question)).value
  }

  /** The prompt gives back the context and the question that filled it. */
  lemma PromptRoundTrip(context: string, question: string)
    ensures var p := Prompt(context, question);
      var contextEnd := |Preamble| + |context|;
      var questionStart := |p| - |Closing| - |question|;
      p[..|Preamble|] == Preamble &&
      p[|Preamble|..contextEnd] == context &&
      p[contextEnd..questionStart] == BeforeQuestion &&
      p[questionStart..|p| - |Closing|] == question &&
      p[|p| - |Closing|..] == Closing
  {
    SplitFive(Preamble, context, BeforeQuestion, question, Closing);
  }

  lemma SplitFive(a: string, b: string, c: string, d: string, e: string)
    ensures var p := a + b + c + d + e;
      p[..|a|] == a &&
      p[|a|..|a| + |b|] == b &&
      p[|a| + |b|..|p| - |e| - |d|] == c &&
      p[|p| - |e| - |d|..|p| - |e|] == d &&
      p[|p| - |e|..] == e
  {
    var p := a + b + c + d + e;
    var ab := a + b;
    var abc := ab + c;
    var abcd := abc + d;
    assert p[..|abcd|] == abcd;
    assert abcd[..|abc|] == abc;
    assert abc[..|ab|] == ab;
  }

  /** `f"[{d.metadata['filename']}]\n{d.page_content}"` */
  function Block(d: Doc): string {
    "[" + d.filename + "]\n" + d.content
  }

  function Blocks(docs: seq<Doc>): (r: seq<string>)
    ensures |r| == |docs|
    ensures forall i :: 0 <= i < |docs| ==> r[i] == Block(docs[i])
  {
    if docs == [] then [] else [Block(docs[0])] + Blocks(docs[1..])
  }

  const BlockSeparator: string := "\n\n"

  /** `"\n\n".join(...)` over the documents in the order the retriever gave. */
  function Context(docs: seq<Doc>): (r: string)
    ensures r == "" <==> docs == []
    ensures |docs| == 1 ==> r == Block(docs[0])
  {
    Join(Blocks(docs), BlockSeparator)
  }

  /** No documents, empty context. */
  lemma EmptyContext()
    ensures Context([]) == ""
  {
  }

  /** Where document `i`'s block starts in the context. */
  function BlockOffset(docs: seq<Doc>, i: nat): nat
    requires i <= |docs|
  {
    PartOffset(Blocks(docs), BlockSeparator, i)
  }

  /** Each document's block, header and text, sits in the context in
      retriever order: the first at the start, the last at the end, and one
      blank line between neighbours. */
  lemma {:induction false} ContextLayout(docs: seq<Doc>, i: nat)
    requires i < |docs|
    ensures var ctx := Context(docs);
      var at := BlockOffset(docs, i);
      var header := "[" + docs[i].filename + "]\n";
      at + |Block(docs[i])| <= |ctx| &&
      ctx[at..at + |Block(docs[i])|] == Block(docs[i]) &&
      ctx[at..at + |header|] == header &&
      ctx[at + |header|..at + |Block(docs[i])|] == docs[i].content &&
      (i == 0 ==> at == 0) &&
      (i + 1 == |docs| ==> at + |Block(docs[i])| == |ctx|) &&
      (i + 1 < |docs| ==>
        BlockOffset(docs, i + 1) == at + |Block(docs[i])| + |BlockSeparator| &&
        BlockOffset(docs, i + 1) <= |ctx| &&
        ctx[at + |Block(docs[i])|..BlockOffset(docs, i + 1)] == BlockSeparator)
  {
    var blocks := Blocks(docs);
    var ctx := Context(docs);
    var at := BlockOffset(docs, i);
    var header := "[" + docs[i].filename + "]\n";
    JoinPartAt(blocks, BlockSeparator, i);
    assert ctx[at..at + |Block(docs[i])|] == Block(docs[i]);
    assert Block(docs[i]) == header + docs[i].content;
    assert ctx[at..at + |header|] == Block(docs[i])[..|header|];
    assert ctx[at + |header|..at + |Block(docs[i])|] == Block(docs[i])[|header|..];
    if i + 1 < |docs| {
      JoinSeparatorAfter(blocks, BlockSeparator, i);
    }
  }

  /** `list(set(xs))`: each element once. Python leaves the order open; this
      keeps first occurrences. */
  function Distinct(xs: seq<string>): (r: seq<string>)
    ensures NoDup(r)
    ensures forall x :: x in r <==> x in xs
    ensures |r| <= |xs|
  {
    if xs == [] then []
    else
      var rest := Distinct(xs[..|xs| - 1]);
      var last := xs[|xs| - 1];
      assert forall x :: x in xs <==> x in xs[..|xs| - 1] || x == last;
      if last in rest then rest else rest + [last]
  }

  function Filenames(docs: seq<Doc>): (r: seq<string>)
    ensures |r| == |docs|
    ensures forall i :: 0 <= i < |docs| ==> r[i] == docs[i].filename
  {
    if docs == [] then [] else [docs[0].filename] + Filenames(docs[1..])
  }

  /** `list({d.metadata["filename"] for d in docs})` */
  function Sources(docs: seq<Doc>): (r: seq<string>)
    ensures NoDup(r)
    ensures forall f :: f in r <==> exists d :: d in docs && d.filename == f
    ensures |r| <= |docs|
  {
    var names := Filenames(docs);
    assert forall f :: f in names <==> exists d :: d in docs && d.filename == f by {
      forall f | f in names ensures exists d :: d in docs && d.filename == f {
        var i :| 0 <= i < |names| && names[i] == f;
        assert docs[i] in docs;
      }
      forall f | (exists d :: d in docs && d.filename == f) ensures f in names {
        var d :| d in docs && d.filename == f;
        var i :| 0 <= i < |docs| && docs[i] == d;
        assert names[i] == f;
      }
    }
    Distinct(names)
  }

  /** What `run` returns: the model's reply, the source file names and the
      retrieved documents. */
  datatype Answer = Answer(text: string, sources: seq<string>, documents: seq<Doc>)

  /** `run(question)`, with `search` the vector search behind the retriever
      and `llm` the model's reply to a prompt. */
  function Run(search: string -> seq<Doc>, llm: string -> string, question: string): (r: Answer)
    ensures r.documents == Retriever.Select(question, search(question))
    ensures r.text == llm(Preamble + Context(r.documents) + BeforeQuestion + question + Closing)
    ensures NoDup(r.sources)
    ensures forall f :: f in r.sources <==> exists d :: d in r.documents && d.filename == f
  {
    var docs := Retriever.Select(question, search(question));
    Answer(llm(Prompt(Context(docs), question)), Sources(docs), docs)
  }

  /** The retriever's output is passed through untouched: at most three
      documents, each one a search result. */
  lemma RunDocumentsFromSearch(search: string -> seq<Doc>, llm: string -> string, question: string)
    ensures var r := Run(search, llm, question);
      |r.documents| <= Retriever.MaxMixed &&
      multiset(r.documents) <= multiset(search(question)) &&
      |r.sources| <= |r.documents|
  {
    Retriever.RankBounded(Retriever.IsPolicyQuery(question), search(question));
  }

  /** There is no gate on an empty retrieval: the model is still asked, with
      an empty context, and its reply is returned with no sources. */
  lemma NoAnswerGate(search: string -> seq<Doc>, llm: string -> string, question: string)
    requires search(question) == []
    ensures Run(search, llm, question) == Answer(llm(Prompt("", question)), [], [])
  {
    Retriever.EmptyResultsSelectNothing(question);
    EmptyContext();
  }

  /** Every document handed to the model appears in its prompt with its
      filename header, in retriever order. */
  lemma PromptCitesEachDocument(docs: seq<Doc>, question: string, i: nat)
    requires i < |docs|
    ensures var p := Prompt(Context(docs), question);
      var at := |Preamble| + BlockOffset(docs, i);
      at + |Block(docs[i])| <= |p| &&
      p[at..at + |Block(docs[i])|] == Block(docs[i])
  {
    BlockInFilledText(Preamble, BeforeQuestion, Closing, docs, question, i);
  }

  lemma BlockInFilledText(pre: string, mid: string, post: string, docs: seq<Doc>, question: string, i: nat)
    requires i < |docs|
    ensures var p := pre + Context(docs) + mid + question + post;
      var at := |pre| + BlockOffset(docs, i);
      at + |Block(docs[i])| <= |p| &&
      p[at..at + |Block(docs[i])|] == Block(docs[i])
  {
    var at := BlockOffset(docs, i);
    BlockInContext(docs, i);
    SliceOfSecond(pre, Context(docs), mid, question, post, at, at + |Block(docs[i])|);
  }

  lemma BlockInContext(docs: seq<Doc>, i: nat)
    requires i < |docs|
    ensures BlockOffset(docs, i) + |Block(docs[i])| <= |Context(docs)|
    ensures Context(docs)[BlockOffset(docs, i)..BlockOffset(docs, i) + |Block(docs[i])|] == Block(docs[i])
  {
    JoinPartAt(Blocks(docs), BlockSeparator, i);
  }

  lemma SliceOfSecond(x: string, y: string, t1: string, t2: string, t3: string, a: nat, b: nat)
    requires a <= b <= |y|
    ensures |x| + b <= |x + y + t1 + t2 + t3|
    ensures (x + y + t1 + t2 + t3)[|x| + a..|x| + b] == y[a..b]
  {
    var head := x + y;
    var p := x + y + t1 + t2 + t3;
    assert p[..|head|] == head;
    assert p[|x| + a..|x| + b] == head[|x| + a..|x| + b];
  }
}
