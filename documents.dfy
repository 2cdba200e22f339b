/** A retrieved or loaded document: its text and the metadata the core reads.
    The metadata is a dictionary in the source; `filename` is always present,
    `document_type` and `effective_year` may be missing. */
module Documents {
  import opened Wrappers

  datatype Doc = Doc(
    filename: string,
    content: string,
    documentType: Option<string>,
    effectiveYear: Option<int>)

  /** The type stored under `document_type` that marks a policy document. */
  const PolicyType: string := "policy"

  /** What the retriever reads when `document_type` is missing. */
  const DefaultDocumentType: string := "general"

  /** `metadata.get("document_type", "general")` */
  function DocumentType(d: Doc): string {
    d.documentType.GetOr(DefaultDocumentType)
  }

  /** `metadata.get("effective_year", 0)` */
  function Year(d: Doc): int {
    d.effectiveYear.GetOr(0)
  }

  predicate IsPolicy(d: Doc) {
    DocumentType(d) == PolicyType
  }

  predicate IsNonPolicy(d: Doc) {
    !IsPolicy(d)
  }

  /** A document is a policy document exactly when its metadata says
      `document_type == "policy"`; a missing type never counts. */
  lemma PolicyIffTagged(d: Doc)
    ensures IsPolicy(d) <==> d.documentType == Some(PolicyType)
    ensures d.documentType == None ==> IsNonPolicy(d)
  {
    assert DefaultDocumentType != PolicyType by {
      assert DefaultDocumentType[0] != PolicyType[0];
    }
  }
}
