/** `DocumentLoader.load`: turns the `.txt` files of the knowledge-base
    directory into documents with a `filename` and an `effective_year`.
    Listing the directory and reading the files are outside the model: the
    argument is the listing, in the order `os.listdir` gave it, with each
    file's text. */
module DocumentLoader {
  import opened Wrappers
  import opened Seqs
  import opened Text
  import opened Documents
  import opened PythonInt
  import Retriever

  /** One directory entry and the text read from it. */
  datatype SourceFile = SourceFile(name: string, content: string)

  /** `int()` raised `ValueError` on the year part of a policy file name;
      the exception leaves `load`, so nothing is loaded. */
  datatype LoadError = YearNotAnInteger(filename: string, segment: string)

  const TextExtension: string := ".txt"

  /** File names containing this (case-sensitive) carry a year. */
  const PolicyMarker: string := "policy"

  predicate IsTextFile(f: SourceFile) {
    EndsWith(f.name, TextExtension)
  }

  /** `file.split("_")[-1].replace(".txt", "")` */
  function YearSegment(name: string): (r: string)
    ensures '_' !in r
    ensures |r| <= |name|
  {
    var segment := LastSegment(name, '_');
    RemoveAllKeepsCharacters(segment, TextExtension);
    assert '_' !in multiset(segment);
    RemoveAll(segment, TextExtension)
  }

  /** `int(YearSegment(file)) if "policy" in file else 0` */
  function EffectiveYear(name: string): (r: Result<int, LoadError>)
    ensures r.Ok? && r.value != 0 ==> Contains(name, PolicyMarker)
    ensures r.Ok? && Contains(name, PolicyMarker) ==> ParseInt(YearSegment(name)) == Some(r.value)
    ensures r.Err? ==> Contains(name, PolicyMarker) && ParseInt(YearSegment(name)) == None &&
                       r.error == YearNotAnInteger(name, YearSegment(name))
  {
    if Contains(name, PolicyMarker) then
      match ParseInt(YearSegment(name))
      case Some(year) => Ok(year)
      case None => Err(YearNotAnInteger(name, YearSegment(name)))
    else Ok(0)
  }

  /** `Document(page_content=content, metadata={"filename": ..., "effective_year": ...})` */
  function MakeDocument(f: SourceFile, year: int): (d: Doc)
    ensures d.filename == f.name && d.content == f.content
    ensures Year(d) == year
    ensures IsNonPolicy(d)
  {
    PolicyIffTagged(Doc(f.name, f.content, None, Some(year)));
    Doc(f.name, f.content, None, Some(year))
  }

  /** Documents in front of a load that went on, or its error. */
  function Prepend(docs: seq<Doc>, rest: Result<seq<Doc>, LoadError>): Result<seq<Doc>, LoadError> {
    match rest
    case Ok(more) => Ok(docs + more)
    case Err(e) => Err(e)
  }

  lemma PrependNothing(rest: Result<seq<Doc>, LoadError>)
    ensures Prepend([], rest) == rest
  {
    if rest.Ok? {
      assert [] + rest.value == rest.value;
    }
  }

  lemma PrependTwice(a: seq<Doc>, b: seq<Doc>, rest: Result<seq<Doc>, LoadError>)
    ensures Prepend(a, Prepend(b, rest)) == Prepend(a + b, rest)
  {
    if rest.Ok? {
      assert a + (b + rest.value) == (a + b) + rest.value;
    }
  }

  /** What `load` returns, or the error it raises, for a directory listing. */
  function LoadAll(files: seq<SourceFile>): (r: Result<seq<Doc>, LoadError>)
    ensures r.Ok? ==> |r.value| <= |files|
    ensures r.Ok? ==> forall d :: d in r.value ==> IsNonPolicy(d)
  {
    if files == [] then Ok([])
    else if !IsTextFile(files[0]) then LoadAll(files[1..])
    else
      match EffectiveYear(files[0].name)
      case Err(e) => Err(e)
      case Ok(year) => Prepend([MakeDocument(files[0], year)], LoadAll(files[1..]))
  }

  /** The loader as the source runs it: one pass over the listing that
      appends a document for each `.txt` file. */
  method Load(files: seq<SourceFile>) returns (result: Result<seq<Doc>, LoadError>)
    ensures result == LoadAll(files)
  {
    var documents: seq<Doc> := [];
    assert files[0..] == files;
    PrependNothing(LoadAll(files));
    for i := 0 to |files|
      invariant LoadAll(files) == Prepend(documents, LoadAll(files[i..]))
    {
      var file := files[i];
      assert files[i..][1..] == files[i + 1..];
      if EndsWith(file.name, TextExtension) {
        var year := EffectiveYear(file.name);
        if year.Err? {
          return Err(year.error);
        }
        PrependTwice(documents, [MakeDocument(file, year.value)], LoadAll(files[i + 1..]));
        documents := documents + [MakeDocument(file, year.value)];
      }
    }
    assert files[|files|..] == [];
    assert documents + [] == documents;
    return Ok(documents);
  }

  /** `docs` holds one document per file of `textFiles`, in the same order,
      each made from its file with the year its name gives. */
  predicate DocumentsOf(textFiles: seq<SourceFile>, docs: seq<Doc>) {
    |docs| == |textFiles| &&
    forall k :: 0 <= k < |docs| ==>
      EffectiveYear(textFiles[k].name).Ok? &&
      docs[k] == MakeDocument(textFiles[k], EffectiveYear(textFiles[k].name).value)
  }

  lemma DocumentsOfCons(f: SourceFile, year: int, textFiles: seq<SourceFile>, docs: seq<Doc>)
    requires EffectiveYear(f.name) == Ok(year)
    requires DocumentsOf(textFiles, docs)
    ensures DocumentsOf([f] + textFiles, [MakeDocument(f, year)] + docs)
  {
    var allFiles := [f] + textFiles;
    var allDocs := [MakeDocument(f, year)] + docs;
    forall k | 1 <= k < |allDocs| ensures allDocs[k] == docs[k - 1] && allFiles[k] == textFiles[k - 1] {
    }
  }

  /** A successful load has one document per `.txt` file, in listing order,
      each with the file's name and text, no `document_type`, and the year
      derived from its name. */
  lemma {:induction false} LoadedDocuments(files: seq<SourceFile>)
    requires LoadAll(files).Ok?
    ensures DocumentsOf(Filter(IsTextFile, files), LoadAll(files).value)
  {
    if files != [] {
      var rest := files[1..];
      LoadedDocuments(rest);
      if IsTextFile(files[0]) {
        var year := EffectiveYear(files[0].name).value;
        assert LoadAll(files).value == [MakeDocument(files[0], year)] + LoadAll(rest).value;
        assert Filter(IsTextFile, files) == [files[0]] + Filter(IsTextFile, rest);
        DocumentsOfCons(files[0], year, Filter(IsTextFile, rest), LoadAll(rest).value);
      } else {
        assert LoadAll(files) == LoadAll(rest);
        assert Filter(IsTextFile, files) == Filter(IsTextFile, rest);
      }
    }
  }

  /** A load fails exactly when some `.txt` file's year does not parse, and
      then with the error of the first such file in the listing. */
  lemma LoadFailure(files: seq<SourceFile>)
    ensures LoadAll(files).Err? <==>
            exists f :: f in files && IsTextFile(f) && EffectiveYear(f.name).Err?
    ensures LoadAll(files).Err? ==>
            exists i :: 0 <= i < |files| && IsTextFile(files[i]) &&
              EffectiveYear(files[i].name) == Err(LoadAll(files).error) &&
              forall j :: 0 <= j < i && IsTextFile(files[j]) ==> EffectiveYear(files[j].name).Ok?
  {
    LoadFailsIff(files);
    FirstFailure(files);
  }

  lemma {:induction false} LoadFailsIff(files: seq<SourceFile>)
    ensures LoadAll(files).Err? <==>
            exists f :: f in files && IsTextFile(f) && EffectiveYear(f.name).Err?
  {
    if files != [] {
      LoadFailsIff(files[1..]);
      assert forall g :: g in files <==> g == files[0] || g in files[1..];
    }
  }

  lemma {:induction false} FirstFailure(files: seq<SourceFile>)
    ensures LoadAll(files).Err? ==>
            exists i :: 0 <= i < |files| && IsTextFile(files[i]) &&
              EffectiveYear(files[i].name) == Err(LoadAll(files).error) &&
              forall j :: 0 <= j < i && IsTextFile(files[j]) ==> EffectiveYear(files[j].name).Ok?
  {
    if files != [] {
      FirstFailure(files[1..]);
      var f := files[0];
      if IsTextFile(f) && EffectiveYear(f.name).Err? {
        assert EffectiveYear(files[0].name) == Err(LoadAll(files).error);
      } else if LoadAll(files).Err? {
        var i :| 0 <= i < |files[1..]| && IsTextFile(files[1..][i]) &&
                 EffectiveYear(files[1..][i].name) == Err(LoadAll(files[1..]).error) &&
                 forall j :: 0 <= j < i && IsTextFile(files[1..][j]) ==>
                   EffectiveYear(files[1..][j].name).Ok?;
        forall j | 0 <= j < i + 1 && IsTextFile(files[j])
          ensures EffectiveYear(files[j].name).Ok?
        {
          if j > 0 { assert files[j] == files[1..][j - 1]; }
        }
        assert files[i + 1] == files[1..][i];
      }
    }
  }

  lemma NoUnderscoreInDecimal(y: int)
    ensures '_' !in IntToDecimal(y) && '.' !in IntToDecimal(y)
  {
    var n: nat := if y < 0 then -y else y;
    var digits := NatToDecimal(n);
    if y < 0 {
      assert forall c :: c in IntToDecimal(y) ==> c == '-' || c in digits;
    }
  }

  lemma NoDotNoTxt(s: string)
    requires '.' !in s
    ensures !Contains(s, TextExtension)
  {
    forall i | 0 <= i && i + |TextExtension| <= |s|
      ensures !OccursAt(s, TextExtension, i)
    {
      assert s[i..i + |TextExtension|][0] == s[i];
    }
    ContainsIff(s, TextExtension);
  }

  /** The year written after the last underscore of a policy file name is the
      year the document gets: a name `<prefix>_<str(y)>.txt` that contains
      "policy" yields `y`. */
  lemma YearFromPolicyName(prefix: string, y: int)
    requires Contains(prefix + "_" + IntToDecimal(y) + TextExtension, PolicyMarker)
    ensures EffectiveYear(prefix + "_" + IntToDecimal(y) + TextExtension) == Ok(y)
  {
    var digits := IntToDecimal(y);
    var name := prefix + "_" + digits + TextExtension;
    NoUnderscoreInDecimal(y);
    assert name == prefix + ['_'] + (digits + TextExtension);
    LastSegmentOfSuffix(prefix, '_', digits + TextExtension);
    RemoveTxtSuffix(digits);
    NoDotNoTxt(digits);
    RemoveAllAbsent(digits, TextExtension);
    assert YearSegment(name) == digits;
    ParseIntRoundTrip(y);
  }

  /** A loaded document whose name does not contain "policy" has year 0,
      whatever else its name holds. */
  lemma OtherFilesGetYearZero(files: seq<SourceFile>)
    requires LoadAll(files).Ok?
    ensures forall d :: d in LoadAll(files).value && !Contains(d.filename, PolicyMarker) ==>
              d.effectiveYear == Some(0)
  {
    LoadedDocuments(files);
    var docs := LoadAll(files).value;
    var textFiles := Filter(IsTextFile, files);
    forall d | d in docs && !Contains(d.filename, PolicyMarker) ensures d.effectiveYear == Some(0) {
      var k :| 0 <= k < |docs| && docs[k] == d;
      assert d == MakeDocument(textFiles[k], EffectiveYear(textFiles[k].name).value);
    }
  }

  /** `policy_2024.txt` gets 2024. */
  lemma YearOfPolicy2024()
    ensures EffectiveYear("policy_2024.txt") == Ok(2024)
  {
    assert IntToDecimal(2024) == "2024";
    assert "policy" + "_" + "2024" + TextExtension == "policy_2024.txt";
    assert Contains("policy_2024.txt", PolicyMarker) by {
      assert "policy_2024.txt"[..6] == PolicyMarker;
    }
    YearFromPolicyName("policy", 2024);
  }

  lemma LastSegmentWithoutSeparator(s: string, sep: char)
    requires sep !in s
    ensures LastSegment(s, sep) == s
  {
    var r := LastSegment(s, sep);
    assert forall k :: 0 <= k < |s| ==> s[k] != sep;
    assert |r| == |s|;
    assert s[0..] == s;
  }

  /** A policy file named `<stem>.txt` with no underscore: the whole stem is
      taken for the year, so unless the stem is itself a number the load
      fails rather than defaulting. */
  lemma PolicyNameWithoutUnderscore(stem: string)
    requires '_' !in stem && '.' !in stem
    requires Contains(stem + TextExtension, PolicyMarker)
    ensures ParseInt(stem).None? ==>
            EffectiveYear(stem + TextExtension) == Err(YearNotAnInteger(stem + TextExtension, stem))
    ensures ParseInt(stem).Some? ==> EffectiveYear(stem + TextExtension) == Ok(ParseInt(stem).value)
  {
    assert '_' !in stem + TextExtension by {
      assert forall c :: c in stem + TextExtension ==> c in stem || c in TextExtension;
    }
    LastSegmentWithoutSeparator(stem + TextExtension, '_');
    RemoveTxtSuffix(stem);
    NoDotNoTxt(stem);
    RemoveAllAbsent(stem, TextExtension);
  }

  /** A stem that starts and ends with a lower-case letter is not a number. */
  lemma WordIsNotANumber(stem: string)
    requires stem != [] && 'a' <= stem[0] <= 'z' && 'a' <= stem[|stem| - 1] <= 'z'
    ensures ParseInt(stem) == None
  {
    StripUnpadded(stem);
    ParseIntRejectsOtherCharacters(stem, 0);
  }

  lemma ContainsInPrefix(s: string, t: string, sub: string)
    requires Contains(s, sub)
    ensures Contains(s + t, sub)
  {
    ContainsIff(s, sub);
    var i :| OccursAt(s, sub, i);
    assert (s + t)[i..i + |sub|] == s[i..i + |sub|];
    assert OccursAt(s + t, sub, i);
    ContainsIff(s + t, sub);
  }

  /** A policy file named like `policy.txt` or `leave-policy.txt`, with no
      underscore and a stem that is a word, fails to load. */
  lemma PolicyWithoutYearFails(stem: string)
    requires '_' !in stem && '.' !in stem && Contains(stem, PolicyMarker)
    requires 'a' <= stem[0] <= 'z' && 'a' <= stem[|stem| - 1] <= 'z'
    ensures EffectiveYear(stem + TextExtension) == Err(YearNotAnInteger(stem + TextExtension, stem))
  {
    ContainsInPrefix(stem, TextExtension, PolicyMarker);
    WordIsNotANumber(stem);
    PolicyNameWithoutUnderscore(stem);
  }

  /** As shipped, documents reach the index without a `document_type`, so
      whatever the search returns from them, and whatever the query, the
      retriever never takes its policy path and returns the first two results. */
  lemma LoadedDocumentsSkipPolicyPath(files: seq<SourceFile>, query: string, rawResults: seq<Doc>)
    requires LoadAll(files).Ok?
    requires forall d :: d in rawResults ==> d in LoadAll(files).value
    ensures Retriever.Select(query, rawResults) == Take(rawResults, Retriever.MixedPerKind)
  {
    LoadedDocuments(files);
    var docs := LoadAll(files).value;
    forall d | d in rawResults ensures d.documentType.None? {
      var k :| 0 <= k < |docs| && docs[k] == d;
    }
    Retriever.UntypedResultsTakeFirstTwo(query, rawResults);
  }
}
