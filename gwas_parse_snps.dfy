/** `GWAS.parse_snps`: the documents of a response as a nested map
    rsID -> risk allele -> projection of the record, where the projection
    is the whole record (`parse_type='all'`) or the requested attributes
    with `"n/a"` for the absent ones (`parse_type='custom'`). A later record
    with the same rsID and allele replaces the earlier one. */
module GwasParseSnps {
  import opened Json
  import opened PyCall
  import opened GwasKeys
  import opened GwasSnpList

  /** A projected record: attribute name to value. */
  type Leaf = map<string, Value>

  /** rsID -> risk allele -> projected record. */
  type SnpMap = map<string, map<string, Leaf>>

  const DEFAULT_PARSE_TYPE := "all"
  const DEFAULT_CUSTOM_ATTR: seq<string> := ["orPerCopyNum", "riskFrequency"]

  /** The two modes that write a leaf; any other `parse_type` writes none. */
  predicate Writes(parseType: string) {
    parseType == "all" || parseType == "custom"
  }

  /** The value the `if attr in snpObj` test stores for one requested
      attribute: the record's own, or the sentinel. */
  function AttrValue(doc: Record, attr: string): Value {
    if attr in doc then doc[attr] else Str(NOT_AVAILABLE)
  }

  /** The fresh leaf the `for attr in custom_attr` loop builds, one
      requested attribute after another. */
  function CustomLeaf(doc: Record, attrs: seq<string>): Leaf
    decreases |attrs|
  {
    if |attrs| == 0 then map[]
    else
      var last := attrs[|attrs| - 1];
      CustomLeaf(doc, attrs[..|attrs| - 1])[last := AttrValue(doc, last)]
  }

  /** A custom leaf has exactly the requested attributes as keys, each
      holding the record's value or the sentinel; repeated names change
      nothing. */
  lemma {:induction false} CustomLeafSpec(doc: Record, attrs: seq<string>)
    ensures CustomLeaf(doc, attrs).Keys == set a | a in attrs
    ensures forall a :: a in attrs ==> CustomLeaf(doc, attrs)[a] == AttrValue(doc, a)
    decreases |attrs|
  {
    if |attrs| > 0 {
      var front := attrs[..|attrs| - 1];
      CustomLeafSpec(doc, front);
      assert attrs == front + [attrs[|attrs| - 1]];
      assert forall a :: a in attrs <==> a in front || a == attrs[|attrs| - 1];
    }
  }

  /** What a writing mode stores for a record. */
  function Project(doc: Record, parseType: string, attrs: seq<string>): Leaf {
    if parseType == "all" then doc else CustomLeaf(doc, attrs)
  }

  /** One pass of the body of the `for snpObj in ...["docs"]` loop, after
      the key extraction, for a record with key `(rsID, allele)`. */
  function Insert(m: SnpMap, key: Pair, doc: Record, parseType: string, attrs: seq<string>): (r: SnpMap)
    ensures r.Keys == m.Keys + {key.0}
    ensures Writes(parseType) ==> key.1 in r[key.0] && r[key.0][key.1] == Project(doc, parseType, attrs)
    ensures !Writes(parseType) ==> forall id :: id in r ==> r[id] == (if id in m then m[id] else map[])
    ensures forall id, ra :: id in m && ra in m[id] && (id, ra) != key ==>
              ra in r[id] && r[id][ra] == m[id][ra]
    ensures forall id, ra :: id in r && ra in r[id] && (id, ra) != key ==>
              id in m && ra in m[id]
  {
    var (rsID, ra) := key;
    var withId := if rsID !in m then m[rsID := map[]] else m;
    if parseType == "all" then withId[rsID := withId[rsID][ra := doc]]
    else if parseType == "custom" then withId[rsID := withId[rsID][ra := CustomLeaf(doc, attrs)]]
    else withId
  }

  /** The specification of the `for snpObj in ...["docs"]` loop: the nested map built
      from the documents walked so far, or the error of the first document
      whose extraction raises. */
  function ParseFold(docs: seq<Record>, parseType: string, attrs: seq<string>): Result<SnpMap>
    requires AllWellTyped(docs)
    decreases |docs|
  {
    if |docs| == 0 then Ok(map[])
    else
      match ParseFold(docs[..|docs| - 1], parseType, attrs)
      case Err(e) => Err(e)
      case Ok(m) =>
        match KeyOf(docs[|docs| - 1])
        case Err(e) => Err(e)
        case Ok(key) => Ok(Insert(m, key, docs[|docs| - 1], parseType, attrs))
  }

  /** Once a document has raised, later documents change nothing. */
  lemma {:induction false} ErrorSticks(docs: seq<Record>, n: nat, parseType: string, attrs: seq<string>)
    requires AllWellTyped(docs) && n <= |docs|
    requires ParseFold(docs[..n], parseType, attrs).Err?
    ensures ParseFold(docs, parseType, attrs) == ParseFold(docs[..n], parseType, attrs)
    decreases |docs| - n
  {
    if n < |docs| {
      assert docs[..|docs| - 1][..n] == docs[..n];
      ErrorSticks(docs[..|docs| - 1], n, parseType, attrs);
    } else {
      assert docs[..n] == docs;
    }
  }

  /** The loop body after the key extraction, for a record with key `(rsID, ra)`:
      the outer entry is created when the rsID is new; in mode 'all' the
      record is stored; in mode 'custom' the leaf is reset to `{}` and
      filled in place, attribute by attribute. */
  method Store(snpDict: SnpMap, key: Pair, snpObj: Record, parseType: string, customAttr: seq<string>)
    returns (d: SnpMap)
    ensures d == Insert(snpDict, key, snpObj, parseType, customAttr)
  {
    var (rsID, ra) := key;
    d := snpDict;
    if rsID !in d {
      d := d[rsID := map[]];
    }
    if parseType == "all" {
      d := d[rsID := d[rsID][ra := snpObj]];
    } else if parseType == "custom" {
      ghost var base := d;
      d := d[rsID := d[rsID][ra := map[]]];
      var j := 0;
      assert customAttr[..0] == [];
      while j < |customAttr|
        invariant 0 <= j <= |customAttr|
        invariant d == base[rsID := base[rsID][ra := CustomLeaf(snpObj, customAttr[..j])]]
      {
        var attr := customAttr[j];
        assert customAttr[..j + 1][..j] == customAttr[..j];
        ghost var next := CustomLeaf(snpObj, customAttr[..j + 1]);
        assert next == CustomLeaf(snpObj, customAttr[..j])[attr := AttrValue(snpObj, attr)];
        if attr in snpObj {
          d := d[rsID := d[rsID][ra := d[rsID][ra][attr := snpObj[attr]]]];
        } else {
          d := d[rsID := d[rsID][ra := d[rsID][ra][attr := Str(NOT_AVAILABLE)]]];
        }
        assert d[rsID] == base[rsID][ra := next];
        j := j + 1;
      }
      assert customAttr[..j] == customAttr;
    }
  }

  /** `parse_snps` itself, `kwargs` given as the two optional keyword arguments:
      walk the documents, extract each key (letting uncaught errors escape)
      and store the record's projection. */
  method ParseSnps(docs: seq<Record>, parseTypeArg: Option<string>, customAttrArg: Option<seq<string>>)
    returns (r: Result<SnpMap>)
    requires AllWellTyped(docs)
    ensures r == ParseFold(docs, parseTypeArg.GetOr(DEFAULT_PARSE_TYPE), customAttrArg.GetOr(DEFAULT_CUSTOM_ATTR))
  {
    var parseType := parseTypeArg.GetOr(DEFAULT_PARSE_TYPE);
    var customAttr := customAttrArg.GetOr(DEFAULT_CUSTOM_ATTR);
    var snpDict: SnpMap := map[];
    var i := 0;
    while i < |docs|
      invariant 0 <= i <= |docs|
      invariant ParseFold(docs[..i], parseType, customAttr) == Ok(snpDict)
    {
      assert docs[..i + 1][..i] == docs[..i];
      var key := KeyOf(docs[i]);
      if key.Err? {
        ErrorSticks(docs, i + 1, parseType, customAttr);
        return Err(key.error);
      }
      snpDict := Store(snpDict, key.value, docs[i], parseType, customAttr);
      i := i + 1;
    }
    assert docs[..i] == docs;
    return Ok(snpDict);
  }

  /** The map is built exactly when every document is keyed, and fails with
      the same error as `snp_list` otherwise. */
  lemma {:induction false} ParseFailsLikeSnpList(docs: seq<Record>, parseType: string, attrs: seq<string>)
    requires AllWellTyped(docs)
    ensures ParseFold(docs, parseType, attrs).Ok? <==> SnpPairs(docs).Ok?
    ensures ParseFold(docs, parseType, attrs).Err? ==>
              ParseFold(docs, parseType, attrs).error == SnpPairs(docs).error
    decreases |docs|
  {
    if |docs| > 0 {
      ParseFailsLikeSnpList(docs[..|docs| - 1], parseType, attrs);
    }
  }

  /** Whatever the mode, the outer keys are the rsIDs of all documents; in a
      writing mode the (rsID, allele) entries are exactly the pairs
      `snp_list` returns; in any other mode every inner map is empty. */
  lemma {:induction false} ParseShape(docs: seq<Record>, parseType: string, attrs: seq<string>)
    requires AllWellTyped(docs) && ParseFold(docs, parseType, attrs).Ok?
    ensures SnpPairs(docs).Ok?
    ensures ParseFold(docs, parseType, attrs).value.Keys == set p | p in SnpPairs(docs).value :: p.0
    ensures Writes(parseType) ==>
              forall id, ra :: (id in ParseFold(docs, parseType, attrs).value &&
                                ra in ParseFold(docs, parseType, attrs).value[id])
                               <==> (id, ra) in SnpPairs(docs).value
    ensures !Writes(parseType) ==>
              forall id :: id in ParseFold(docs, parseType, attrs).value ==>
                           ParseFold(docs, parseType, attrs).value[id] == map[]
    decreases |docs|
  {
    ParseFailsLikeSnpList(docs, parseType, attrs);
    if |docs| > 0 {
      var front := docs[..|docs| - 1];
      ParseShape(front, parseType, attrs);
      var pairs := SnpPairs(front).value;
      var key := KeyOf(docs[|docs| - 1]).value;
      assert SnpPairs(docs).value == pairs + [key];
      assert forall p :: p in pairs + [key] <==> p in pairs || p == key;
    }
  }

  /** Last write wins: the entry for a key holds the projection of the last
      document with that key. */
  lemma {:induction false} LastWins(docs: seq<Record>, parseType: string, attrs: seq<string>, j: nat)
    requires AllWellTyped(docs) && ParseFold(docs, parseType, attrs).Ok?
    requires Writes(parseType) && j < |docs|
    requires forall i :: j < i < |docs| ==> KeyOf(docs[i]) != KeyOf(docs[j])
    ensures KeyOf(docs[j]).Ok?
    ensures var key := KeyOf(docs[j]).value;
            var m := ParseFold(docs, parseType, attrs).value;
            key.0 in m && key.1 in m[key.0] && m[key.0][key.1] == Project(docs[j], parseType, attrs)
    decreases |docs|
  {
    var front := docs[..|docs| - 1];
    assert ParseFold(front, parseType, attrs).Ok?;
    if j < |docs| - 1 {
      assert forall i :: j < i < |front| ==> front[i] == docs[i];
      LastWins(front, parseType, attrs, j);
      assert front[j] == docs[j];
    }
  }

  /** Every entry comes from a document with its key, the last one. */
  lemma {:induction false} LeafOrigin(docs: seq<Record>, parseType: string, attrs: seq<string>, id: string, ra: string)
    returns (j: nat)
    requires AllWellTyped(docs) && ParseFold(docs, parseType, attrs).Ok?
    requires id in ParseFold(docs, parseType, attrs).value
    requires ra in ParseFold(docs, parseType, attrs).value[id]
    ensures j < |docs| && KeyOf(docs[j]) == Ok((id, ra))
    ensures forall i :: j < i < |docs| ==> KeyOf(docs[i]) != Ok((id, ra))
    ensures ParseFold(docs, parseType, attrs).value[id][ra] == Project(docs[j], parseType, attrs)
    decreases |docs|
  {
    var front := docs[..|docs| - 1];
    var last := |docs| - 1;
    var key := KeyOf(docs[last]).value;
    if !Writes(parseType) {
      ParseShape(docs, parseType, attrs);
      assert false;
    } else if key == (id, ra) {
      j := last;
    } else {
      j := LeafOrigin(front, parseType, attrs, id, ra);
      assert front[j] == docs[j];
      forall i | j < i < |docs| ensures KeyOf(docs[i]) != Ok((id, ra)) {
        if i < last { assert front[i] == docs[i]; }
      }
    }
  }

  /** In custom mode every leaf has exactly the requested attributes as
      keys, each holding the value of the last document with that rsID and
      allele, or the sentinel when that document lacks the attribute: the
      leaf is rebuilt, so nothing of an earlier duplicate survives. */
  lemma CustomLeaves(docs: seq<Record>, attrs: seq<string>, id: string, ra: string) returns (j: nat)
    requires AllWellTyped(docs) && ParseFold(docs, "custom", attrs).Ok?
    requires id in ParseFold(docs, "custom", attrs).value
    requires ra in ParseFold(docs, "custom", attrs).value[id]
    ensures j < |docs| && KeyOf(docs[j]) == Ok((id, ra))
    ensures forall i :: j < i < |docs| ==> KeyOf(docs[i]) != Ok((id, ra))
    ensures ParseFold(docs, "custom", attrs).value[id][ra].Keys == set a | a in attrs
    ensures forall a :: a in attrs ==> ParseFold(docs, "custom", attrs).value[id][ra][a] == AttrValue(docs[j], a)
  {
    j := LeafOrigin(docs, "custom", attrs, id, ra);
    CustomLeafSpec(docs[j], attrs);
  }

  /** A later record replaces at most its own (rsID, allele) entry: every
      other entry is kept, and no other entry appears. */
  lemma LaterRecordFrame(docs: seq<Record>, doc: Record, parseType: string, attrs: seq<string>)
    requires AllWellTyped(docs + [doc]) && ParseFold(docs + [doc], parseType, attrs).Ok?
    ensures AllWellTyped(docs) && ParseFold(docs, parseType, attrs).Ok? && KeyOf(doc).Ok?
    ensures var before := ParseFold(docs, parseType, attrs).value;
            var after := ParseFold(docs + [doc], parseType, attrs).value;
            var key := KeyOf(doc).value;
            && (forall id, ra :: id in before && ra in before[id] && (id, ra) != key ==>
                  id in after && ra in after[id] && after[id][ra] == before[id][ra])
            && (forall id, ra :: id in after && ra in after[id] && (id, ra) != key ==>
                  id in before && ra in before[id])
  {
  }

  /** Two records with the same rsID and allele in mode 'all': the entry is
      the second record, exactly. */
  lemma AllModeDuplicate(d1: Record, d2: Record, attrs: seq<string>)
    requires WellTyped(d1) && WellTyped(d2) && Keyed(d1) && Keyed(d2)
    requires KeyOf(d1) == KeyOf(d2)
    ensures ParseFold([d1, d2], "all", attrs).Ok?
    ensures var key := KeyOf(d2).value;
            ParseFold([d1, d2], "all", attrs).value[key.0] == map[key.1 := d2]
  {
    var key := KeyOf(d2).value;
    assert [d1, d2][..1] == [d1];
    assert [d1][..0] == [];
    assert KeyOf(d1) == Ok(key);
    assert ParseFold([d1][..0], "all", attrs) == Ok(map[]);
    assert [d1][|[d1]| - 1] == d1;
    assert Insert(map[], key, d1, "all", attrs) == map[key.0 := map[key.1 := d1]];
    assert ParseFold([d1], "all", attrs) == Ok(map[key.0 := map[key.1 := d1]]);
    assert [d1, d2][|[d1, d2]| - 1] == d2;
  }
}
