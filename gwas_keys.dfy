/** The per-record key that `snp_list` and `parse_snps` both extract: the
    record's first rsID and its risk allele, the second `-`-separated piece
    of the first `strongestAllele` string, with `"n/a"` when that piece
    cannot be indexed. */
module GwasKeys {
  import opened Json
  import opened PyCall
  import opened TextSplit

  /** The sentinel for an allele or an attribute that is not available. */
  const NOT_AVAILABLE := "n/a"

  /** What the code takes for granted about a record's shape: `rsId` and
      `strongestAllele`, when present, are JSON arrays of strings. */
  predicate WellTyped(doc: Record) {
    && ("rsId" in doc ==> doc["rsId"].StrList?)
    && ("strongestAllele" in doc ==> doc["strongestAllele"].StrList?)
  }

  predicate AllWellTyped(docs: seq<Record>) {
    forall i :: 0 <= i < |docs| ==> WellTyped(docs[i])
  }

  /** `strongestAllele[0].split('-')[1]`, with an `IndexError` on either
      index answered by the sentinel. */
  function AlleleOf(strongest: seq<string>): string {
    if |strongest| == 0 then NOT_AVAILABLE
    else
      var parts := Split(strongest[0], '-');
      if |parts| < 2 then NOT_AVAILABLE else parts[1]
  }

  /** The first `strongestAllele` string carries a second piece. */
  predicate HasSecondPiece(strongest: seq<string>) {
    |strongest| > 0 && '-' in strongest[0]
  }

  /** The sentinel is taken when the list is empty or its first string has no
      `-`; otherwise the allele is the second piece of the split. */
  lemma AlleleFallback(strongest: seq<string>)
    ensures !HasSecondPiece(strongest) ==> AlleleOf(strongest) == NOT_AVAILABLE
    ensures HasSecondPiece(strongest) ==>
              |Split(strongest[0], '-')| >= 2 && AlleleOf(strongest) == Split(strongest[0], '-')[1]
  {
    if |strongest| > 0 {
      SplitHasSecond(strongest[0], '-');
    }
  }

  /** The allele is the text between the first `-` and the next `-` (or the
      end): `x-y` and `x-y-z...` both give `y`, never a later piece. */
  lemma AlleleIsSecondPiece(x: string, y: string, z: string, rest: seq<string>)
    requires '-' !in x && '-' !in y
    requires z == "" || z[0] == '-'
    ensures AlleleOf([x + "-" + y + z] + rest) == y
  {
    assert x + "-" + y + z == x + ['-'] + (y + z);
    SplitAfterFree(x, '-', y + z);
    if z == "" {
      assert y + z == y;
      SplitFree(y, '-');
    } else {
      assert y + z == y + ['-'] + z[1..];
      SplitAfterFree(y, '-', z[1..]);
    }
  }

  /** The record carries everything the extraction indexes: a non-empty
      `rsId` and a `strongestAllele` key. */
  predicate Keyed(doc: Record)
    requires WellTyped(doc)
  {
    "rsId" in doc && |doc["rsId"].strs| > 0 && "strongestAllele" in doc
  }

  /** The `try`/`except IndexError` statement that both `snp_list` and
      `parse_snps` run on each record: the pair `(rsId[0], allele)`. A missing `rsId` raises `KeyError`; an empty one
      raises `IndexError` inside the `try`, and the `except` branch indexes
      it again, so that `IndexError` escapes; a missing `strongestAllele`
      raises `KeyError`, which is not caught. */
  function KeyOf(doc: Record): (key: Result<(string, string)>)
    requires WellTyped(doc)
    ensures key.Ok? <==> Keyed(doc)
    ensures key == Err(KeyError("rsId")) <==> "rsId" !in doc
    ensures key == Err(IndexError) <==> "rsId" in doc && |doc["rsId"].strs| == 0
    ensures key == Err(KeyError("strongestAllele")) <==>
              "rsId" in doc && |doc["rsId"].strs| > 0 && "strongestAllele" !in doc
    ensures key.Ok? ==> key.value.0 == doc["rsId"].strs[0]
    ensures key.Ok? ==> key.value.1 == AlleleOf(doc["strongestAllele"].strs)
  {
    if "rsId" !in doc then Err(KeyError("rsId"))
    else
      var ids := doc["rsId"].strs;
      if |ids| == 0 then Err(IndexError)
      else if "strongestAllele" !in doc then Err(KeyError("strongestAllele"))
      else Ok((ids[0], AlleleOf(doc["strongestAllele"].strs)))
  }

  /** Worked cases of the allele rule. The split cuts at every `-`, so a
      three-piece string yields its middle piece, not the last one. */
  lemma AlleleMiddlePiece()
    ensures AlleleOf(["rs123-context-T"]) == "context"
  {
    assert "rs123-context-T" == "rs123" + "-" + "context" + "-T";
    AlleleIsSecondPiece("rs123", "context", "-T", []);
  }

  lemma AlleleSecondOfTwo()
    ensures AlleleOf(["ctx-A"]) == "A"
  {
  }

  lemma AlleleTrailingDash()
    ensures AlleleOf(["rs1-"]) == ""
  {
  }

  lemma AlleleNoDash()
    ensures AlleleOf(["rs2497938"]) == NOT_AVAILABLE
    ensures AlleleOf([]) == NOT_AVAILABLE
  {
  }
}
