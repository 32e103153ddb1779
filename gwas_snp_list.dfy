/** `GWAS.snp_list`: one `(rsID, risk allele)` pair per document of the
    response, in document order, duplicates kept. */
module GwasSnpList {
  import opened Json
  import opened PyCall
  import opened GwasKeys

  type Pair = (string, string)

  /** The specification of the loop: the pairs of the documents walked so
      far, or the error of the first document whose extraction raises. */
  function SnpPairs(docs: seq<Record>): (r: Result<seq<Pair>>)
    requires AllWellTyped(docs)
    ensures r.Ok? ==> |r.value| == |docs|
    decreases |docs|
  {
    if |docs| == 0 then Ok([])
    else
      match SnpPairs(docs[..|docs| - 1])
      case Err(e) => Err(e)
      case Ok(pairs) =>
        match KeyOf(docs[|docs| - 1])
        case Err(e) => Err(e)
        case Ok(key) => Ok(pairs + [key])
  }

  /** Once a document has raised, later documents change nothing. */
  lemma {:induction false} ErrorSticks(docs: seq<Record>, n: nat)
    requires AllWellTyped(docs) && n <= |docs|
    requires SnpPairs(docs[..n]).Err?
    ensures SnpPairs(docs) == SnpPairs(docs[..n])
    decreases |docs| - n
  {
    if n < |docs| {
      assert docs[..|docs| - 1][..n] == docs[..n];
      ErrorSticks(docs[..|docs| - 1], n);
    } else {
      assert docs[..n] == docs;
    }
  }

  /** The `for snp in ...["docs"]` loop: append each document's pair, letting the
      errors the `except` clause does not catch escape. */
  method SnpList(docs: seq<Record>) returns (r: Result<seq<Pair>>)
    requires AllWellTyped(docs)
    ensures r == SnpPairs(docs)
  {
    var snpList: seq<Pair> := [];
    var i := 0;
    while i < |docs|
      invariant 0 <= i <= |docs|
      invariant SnpPairs(docs[..i]) == Ok(snpList)
    {
      assert docs[..i + 1][..i] == docs[..i];
      var key := KeyOf(docs[i]);
      if key.Err? {
        ErrorSticks(docs, i + 1);
        return Err(key.error);
      }
      snpList := snpList + [key.value];
      i := i + 1;
    }
    assert docs[..i] == docs;
    return Ok(snpList);
  }

  /** The walk succeeds exactly when every document is keyed; then the
      pairs are those of the documents, one each, in order, duplicates kept. */
  lemma {:induction false} SnpPairsOk(docs: seq<Record>)
    requires AllWellTyped(docs)
    ensures SnpPairs(docs).Ok? <==> forall i :: 0 <= i < |docs| ==> Keyed(docs[i])
    ensures SnpPairs(docs).Ok? ==>
              forall i :: 0 <= i < |docs| ==> SnpPairs(docs).value[i] == KeyOf(docs[i]).value
    decreases |docs|
  {
    if |docs| > 0 {
      var front := docs[..|docs| - 1];
      SnpPairsOk(front);
      assert forall i :: 0 <= i < |front| ==> front[i] == docs[i];
    }
  }

  /** Each pair is the document's first rsID and its allele. */
  lemma SnpPairsContent(docs: seq<Record>, i: nat)
    requires AllWellTyped(docs) && SnpPairs(docs).Ok? && i < |docs|
    ensures Keyed(docs[i])
    ensures SnpPairs(docs).value[i] ==
            (docs[i]["rsId"].strs[0], AlleleOf(docs[i]["strongestAllele"].strs))
  {
    SnpPairsOk(docs);
  }

  /** When the walk fails, it fails with the error of the first document
      that is not keyed. */
  lemma {:induction false} SnpPairsFirstError(docs: seq<Record>, j: nat)
    requires AllWellTyped(docs) && j < |docs|
    requires !Keyed(docs[j])
    requires forall i :: 0 <= i < j ==> Keyed(docs[i])
    ensures SnpPairs(docs) == Err(KeyOf(docs[j]).error)
  {
    var upTo := docs[..j + 1];
    SnpPairsOk(docs[..j]);
    assert forall i :: 0 <= i < j ==> docs[..j][i] == docs[i];
    assert upTo[..j] == docs[..j];
    ErrorSticks(docs, j + 1);
  }

  /** The worked case of two records for one rsID and allele: both pairs
      are kept. */
  lemma TwoRecordsExample(height: Value, weight: Value)
    ensures
      var d1 := map["rsId" := StrList(["rs1"]), "strongestAllele" := StrList(["ctx-A"]), "synonym" := height];
      var d2 := map["rsId" := StrList(["rs1"]), "strongestAllele" := StrList(["ctx-A"]), "synonym" := weight];
      SnpPairs([d1, d2]) == Ok([("rs1", "A"), ("rs1", "A")])
  {
    var d1 := map["rsId" := StrList(["rs1"]), "strongestAllele" := StrList(["ctx-A"]), "synonym" := height];
    var d2 := map["rsId" := StrList(["rs1"]), "strongestAllele" := StrList(["ctx-A"]), "synonym" := weight];
    AlleleSecondOfTwo();
    assert KeyOf(d1) == Ok(("rs1", "A")) && KeyOf(d2) == Ok(("rs1", "A"));
    assert [d1][..0] == [];
    assert SnpPairs([d1][..0]) == Ok([]);
    assert [d1][|[d1]| - 1] == d1;
    assert SnpPairs([d1]) == Ok([] + [KeyOf(d1).value]);
    assert [] + [("rs1", "A")] == [("rs1", "A")];
    assert SnpPairs([d1]) == Ok([("rs1", "A")]);
    assert [d1, d2][..1] == [d1];
    assert [d1, d2][|[d1, d2]| - 1] == d2;
    assert SnpPairs([d1, d2]) == Ok([("rs1", "A")] + [KeyOf(d2).value]);
    assert [("rs1", "A")] + [("rs1", "A")] == [("rs1", "A"), ("rs1", "A")];
  }
}
