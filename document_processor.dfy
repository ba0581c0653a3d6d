/**
  The document processor of the intelligent-document pipeline: it turns the
  flat block graph an OCR service returns for one document into the full text,
  the key/value pairs of its form fields, a distinct-page count and an average
  confidence; it prepares that text for the text-analysis service; and it
  derives the key the combined result is stored under.
 */
module DocumentProcessor {
  import opened Common
  import opened Strings

  /** One relationship of a block: its `Type` (CHILD, VALUE, ...) and the `Ids` it points to. */
  datatype Relationship = Relationship(relType: string, ids: seq<string>)

  /**
    One OCR block. `entityTypes` and `relationships` are empty when the
    block carries no `EntityTypes` or `Relationships`; `text` is the block's
    `Text`, which the service supplies on every LINE and WORD block.
   */
  datatype Block = Block(
    id: string,
    blockType: string,
    text: string,
    entityTypes: seq<string>,
    relationships: seq<Relationship>,
    page: Option<int>,
    confidence: Option<real>)

  /** What the extraction step records: the `extraction` part of the output. */
  datatype Extraction = Extraction(
    fullText: string,
    keyValuePairs: map<string, string>,
    pageCount: nat,
    confidence: Option<real>,   // `extraction_confidence`, absent from the fallback record
    error: Option<string>)      // `error`, present only in the fallback record

  // ---------------------------------------------------------------------------
  // Resolving ids
  // ---------------------------------------------------------------------------

  /** The position of the first block whose id is `id`, if any. */
  function FirstIndex(blocks: seq<Block>, id: string): (r: Option<nat>)
    ensures r.Some? ==> r.value < |blocks| && blocks[r.value].id == id &&
                        forall j :: 0 <= j < r.value ==> blocks[j].id != id
    ensures r.None? ==> forall j :: 0 <= j < |blocks| ==> blocks[j].id != id
  {
    if blocks == [] then None
    else if blocks[0].id == id then Some(0)
    else match FirstIndex(blocks[1..], id)
      case Some(k) => Some(k + 1)
      case None => None
  }

  /** `next((b for b in all_blocks if b['Id'] == id), None)`: the first block with that id. */
  function Lookup(blocks: seq<Block>, id: string): Option<Block>
  {
    match FirstIndex(blocks, id)
    case Some(k) => Some(blocks[k])
    case None => None
  }

  /** There is no block exactly when no block has the id; otherwise it is the first one that has it. */
  lemma LookupFirstMatch(blocks: seq<Block>, id: string)
    ensures Lookup(blocks, id).None? <==> forall j :: 0 <= j < |blocks| ==> blocks[j].id != id
    ensures Lookup(blocks, id).Some? ==> (Lookup(blocks, id).value.id == id &&
      exists k :: 0 <= k < |blocks| && blocks[k] == Lookup(blocks, id).value &&
        forall j :: 0 <= j < k ==> blocks[j].id != id)
  {
    if FirstIndex(blocks, id).Some? {
      var k := FirstIndex(blocks, id).value;
      assert blocks[k] == Lookup(blocks, id).value;
    }
  }

  // ---------------------------------------------------------------------------
  // Relationship text
  // ---------------------------------------------------------------------------

  /** The text `id` contributes: the block's text when it resolves to a WORD block, else nothing. */
  function WordAt(id: string, blocks: seq<Block>): seq<string>
  {
    match Lookup(blocks, id)
    case Some(b) => if b.blockType == "WORD" then [b.text] else []
    case None => []
  }

  /** The texts the ids contribute, in id order. */
  function WordsOf(ids: seq<string>, blocks: seq<Block>): seq<string>
  {
    if ids == [] then []
    else WordsOf(ids[..|ids| - 1], blocks) + WordAt(ids[|ids| - 1], blocks)
  }

  /** The texts of the WORD children of the CHILD relationships, relationship by relationship. */
  function ChildWords(rels: seq<Relationship>, blocks: seq<Block>): seq<string>
  {
    if rels == [] then []
    else
      var last := rels[|rels| - 1];
      ChildWords(rels[..|rels| - 1], blocks) +
        (if last.relType == "CHILD" then WordsOf(last.ids, blocks) else [])
  }

  /**
    The inner loop of `extract_text_from_relationship`: appends to `text` the
    text of every id that resolves to a WORD block, in id order.
   */
  method AppendWords(text: seq<string>, ids: seq<string>, allBlocks: seq<Block>) returns (out: seq<string>)
    ensures out == text + WordsOf(ids, allBlocks)
  {
    out := text;
    var j := 0;
    while j < |ids|
      invariant 0 <= j <= |ids|
      invariant out == text + WordsOf(ids[..j], allBlocks)
    {
      assert ids[..j + 1][..j] == ids[..j];
      var child := Lookup(allBlocks, ids[j]);
      if child.Some? && child.value.blockType == "WORD" {
        out := out + [child.value.text];
      }
      j := j + 1;
    }
    assert ids[..j] == ids;
  }

  /** `extract_text_from_relationship`: the words of the block's children joined by single spaces. */
  method ExtractTextFromRelationship(block: Block, allBlocks: seq<Block>) returns (s: string)
    ensures s == Join(ChildWords(block.relationships, allBlocks), " ")
  {
    var text: seq<string> := [];
    var rels := block.relationships;
    var i := 0;
    while i < |rels|
      invariant 0 <= i <= |rels|
      invariant text == ChildWords(rels[..i], allBlocks)
    {
      var relationship := rels[i];
      assert rels[..i + 1][..i] == rels[..i];
      if relationship.relType == "CHILD" {
        text := AppendWords(text, relationship.ids, allBlocks);
      }
      i := i + 1;
    }
    assert rels[..i] == rels;
    s := Join(text, " ");
  }

  /** Words of consecutive id lists follow one another. */
  lemma {:induction false} WordsOfAppend(ids1: seq<string>, ids2: seq<string>, blocks: seq<Block>)
    ensures WordsOf(ids1 + ids2, blocks) == WordsOf(ids1, blocks) + WordsOf(ids2, blocks)
  {
    if ids2 == [] {
      assert ids1 + ids2 == ids1;
    } else {
      assert (ids1 + ids2)[..|ids1 + ids2| - 1] == ids1 + ids2[..|ids2| - 1];
      WordsOfAppend(ids1, ids2[..|ids2| - 1], blocks);
    }
  }

  /**
    Relationship text keeps relationship order: the words of a list of
    relationships are those of its first part followed by those of the rest.
   */
  lemma {:induction false} ChildWordsAppend(rels1: seq<Relationship>, rels2: seq<Relationship>, blocks: seq<Block>)
    ensures ChildWords(rels1 + rels2, blocks) == ChildWords(rels1, blocks) + ChildWords(rels2, blocks)
  {
    if rels2 == [] {
      assert rels1 + rels2 == rels1;
    } else {
      assert (rels1 + rels2)[..|rels1 + rels2| - 1] == rels1 + rels2[..|rels2| - 1];
      ChildWordsAppend(rels1, rels2[..|rels2| - 1], blocks);
    }
  }

  /** One relationship contributes the WORD texts of its ids if it is a CHILD one, and nothing otherwise. */
  lemma ChildWordsSingle(rel: Relationship, blocks: seq<Block>)
    ensures ChildWords([rel], blocks) == if rel.relType == "CHILD" then WordsOf(rel.ids, blocks) else []
  {
    assert [rel][..0] == [];
  }

  /** An id that resolves to no block, or to a block that is not a WORD, adds no word. */
  lemma UnresolvedIdSkipped(ids1: seq<string>, id: string, ids2: seq<string>, blocks: seq<Block>)
    requires Lookup(blocks, id).None? || Lookup(blocks, id).value.blockType != "WORD"
    ensures WordsOf(ids1 + [id] + ids2, blocks) == WordsOf(ids1 + ids2, blocks)
  {
    WordsOfAppend(ids1 + [id], ids2, blocks);
    WordsOfAppend(ids1, ids2, blocks);
    assert (ids1 + [id])[..|ids1|] == ids1;
  }

  /** `w` is among the words of `ids` exactly when some id resolves to a WORD block with text `w`. */
  lemma {:induction false} WordsOfMembership(ids: seq<string>, blocks: seq<Block>, w: string)
    ensures w in WordsOf(ids, blocks) <==>
      exists j :: 0 <= j < |ids| && WordAt(ids[j], blocks) == [w]
  {
    if ids != [] {
      var init := ids[..|ids| - 1];
      WordsOfMembership(init, blocks, w);
      if w in WordsOf(ids, blocks) && w !in WordsOf(init, blocks) {
        assert WordAt(ids[|ids| - 1], blocks) == [w];
      }
      if exists j :: 0 <= j < |ids| && WordAt(ids[j], blocks) == [w] {
        var j :| 0 <= j < |ids| && WordAt(ids[j], blocks) == [w];
        if j < |ids| - 1 {
          assert init[j] == ids[j];
        }
      }
    }
  }

  /** An id adds the word `w` exactly when it resolves (first match) to a WORD block with text `w`. */
  lemma WordAtIff(id: string, blocks: seq<Block>, w: string)
    ensures WordAt(id, blocks) == [w] <==>
      Lookup(blocks, id).Some? && Lookup(blocks, id).value.blockType == "WORD" && Lookup(blocks, id).value.text == w
  {
  }

  /**
    `w` is in the relationship text exactly when one of the ids of a CHILD
    relationship adds it (see WordAtIff).
   */
  lemma {:induction false} ChildWordsMembership(rels: seq<Relationship>, blocks: seq<Block>, w: string)
    ensures w in ChildWords(rels, blocks) <==>
      exists i, j :: 0 <= i < |rels| && rels[i].relType == "CHILD" && 0 <= j < |rels[i].ids| &&
        WordAt(rels[i].ids[j], blocks) == [w]
  {
    if rels != [] {
      var init := rels[..|rels| - 1];
      var last := rels[|rels| - 1];
      ChildWordsMembership(init, blocks, w);
      WordsOfMembership(last.ids, blocks, w);
      assert forall i :: 0 <= i < |init| ==> init[i] == rels[i];
      if w in ChildWords(rels, blocks) && w !in ChildWords(init, blocks) {
        assert last.relType == "CHILD" && w in WordsOf(last.ids, blocks);
        var j :| 0 <= j < |last.ids| && WordAt(last.ids[j], blocks) == [w];
        assert rels[|rels| - 1].ids[j] == last.ids[j];
      }
    }
  }

  // ---------------------------------------------------------------------------
  // Value text
  // ---------------------------------------------------------------------------

  /** The block named by the first id that resolves, if any. */
  function FirstResolved(ids: seq<string>, blocks: seq<Block>): Option<Block>
  {
    if ids == [] then None
    else match Lookup(blocks, ids[0])
      case Some(b) => Some(b)
      case None => FirstResolved(ids[1..], blocks)
  }

  /** The first block a VALUE relationship's id resolves to, scanning relationships and then ids in order. */
  function FirstValueTarget(rels: seq<Relationship>, blocks: seq<Block>): Option<Block>
  {
    if rels == [] then None
    else if rels[0].relType == "VALUE" && FirstResolved(rels[0].ids, blocks).Some? then
      FirstResolved(rels[0].ids, blocks)
    else FirstValueTarget(rels[1..], blocks)
  }

  /** The value of a key block: the relationship text of its first resolvable VALUE target. */
  function ValueText(keyBlock: Block, blocks: seq<Block>): Option<string>
  {
    match FirstValueTarget(keyBlock.relationships, blocks)
    case Some(v) => Some(Join(ChildWords(v.relationships, blocks), " "))
    case None => None
  }

  /** `extract_value_text`, with its early return from inside the loops. */
  method ExtractValueText(keyBlock: Block, allBlocks: seq<Block>) returns (value: Option<string>)
    ensures value == ValueText(keyBlock, allBlocks)
  {
    var rels := keyBlock.relationships;
    var i := 0;
    while i < |rels|
      invariant 0 <= i <= |rels|
      invariant FirstValueTarget(rels, allBlocks) == FirstValueTarget(rels[i..], allBlocks)
    {
      var relationship := rels[i];
      if relationship.relType == "VALUE" {
        var ids := relationship.ids;
        var j := 0;
        while j < |ids|
          invariant 0 <= j <= |ids|
          invariant FirstResolved(ids, allBlocks) == FirstResolved(ids[j..], allBlocks)
        {
          var valueBlock := Lookup(allBlocks, ids[j]);
          if valueBlock.Some? {
            var text := ExtractTextFromRelationship(valueBlock.value, allBlocks);
            return Some(text);
          }
          assert ids[j..][1..] == ids[j + 1..];
          j := j + 1;
        }
      }
      assert rels[i..][1..] == rels[i + 1..];
      i := i + 1;
    }
    return None;
  }

  /** There is no value exactly when no id of any VALUE relationship resolves to a block. */
  lemma {:induction false} ValueTextNone(rels: seq<Relationship>, blocks: seq<Block>)
    ensures FirstValueTarget(rels, blocks).None? <==>
      forall i, j :: 0 <= i < |rels| && rels[i].relType == "VALUE" && 0 <= j < |rels[i].ids| ==>
        Lookup(blocks, rels[i].ids[j]).None?
  {
    if rels != [] {
      ValueTextNone(rels[1..], blocks);
      FirstResolvedNone(rels[0].ids, blocks);
      assert forall i :: 1 <= i < |rels| ==> rels[i] == rels[1..][i - 1];
    }
  }

  lemma {:induction false} FirstResolvedNone(ids: seq<string>, blocks: seq<Block>)
    ensures FirstResolved(ids, blocks).None? <==>
      forall j :: 0 <= j < |ids| ==> Lookup(blocks, ids[j]).None?
  {
    if ids != [] {
      FirstResolvedNone(ids[1..], blocks);
      assert forall j :: 1 <= j < |ids| ==> ids[j] == ids[1..][j - 1];
    }
  }

  /**
    The value comes from the first VALUE id that resolves, whatever its text:
    if block `v` is what `rels[i].ids[j]` resolves to and no earlier VALUE id
    resolves, the value is `v`'s relationship text, even when that text is
    empty (so no later id is tried).
   */
  lemma {:induction false} ValueTextFirst(rels: seq<Relationship>, blocks: seq<Block>, i: nat, j: nat)
    requires i < |rels| && rels[i].relType == "VALUE" && j < |rels[i].ids|
    requires Lookup(blocks, rels[i].ids[j]).Some?
    requires forall j' :: 0 <= j' < j ==> Lookup(blocks, rels[i].ids[j']).None?
    requires forall i', j' :: 0 <= i' < i && rels[i'].relType == "VALUE" && 0 <= j' < |rels[i'].ids| ==>
      Lookup(blocks, rels[i'].ids[j']).None?
    ensures FirstValueTarget(rels, blocks) == Lookup(blocks, rels[i].ids[j])
  {
    if i == 0 {
      FirstResolvedAt(rels[0].ids, blocks, j);
    } else {
      FirstResolvedNone(rels[0].ids, blocks);
      assert forall i' :: 1 <= i' < |rels| ==> rels[i'] == rels[1..][i' - 1];
      ValueTextFirst(rels[1..], blocks, i - 1, j);
    }
  }

  lemma {:induction false} FirstResolvedAt(ids: seq<string>, blocks: seq<Block>, j: nat)
    requires j < |ids| && Lookup(blocks, ids[j]).Some?
    requires forall j' :: 0 <= j' < j ==> Lookup(blocks, ids[j']).None?
    ensures FirstResolved(ids, blocks) == Lookup(blocks, ids[j])
  {
    if j > 0 {
      assert forall j' :: 0 <= j' < j - 1 ==> ids[1..][j'] == ids[j' + 1];
      FirstResolvedAt(ids[1..], blocks, j - 1);
    }
  }

  // ---------------------------------------------------------------------------
  // The block loop
  // ---------------------------------------------------------------------------

  /** The key/value pair a block contributes, if any. */
  function PairOf(b: Block, blocks: seq<Block>): Option<(string, string)>
  {
    if b.blockType == "KEY_VALUE_SET" && "KEY" in b.entityTypes then
      var key := Join(ChildWords(b.relationships, blocks), " ");
      var value := ValueText(b, blocks);
      if key != "" && value.Some? && value.value != "" then Some((key, value.value)) else None
    else None
  }

  /** The texts of the LINE blocks, in input order. */
  function LineTexts(bs: seq<Block>): seq<string>
  {
    if bs == [] then []
    else LineTexts(bs[..|bs| - 1]) + (if bs[|bs| - 1].blockType == "LINE" then [bs[|bs| - 1].text] else [])
  }

  /** The pairs the blocks of `bs` contribute, inserted in order into one map. */
  function KeyValuePairs(bs: seq<Block>, all: seq<Block>): map<string, string>
  {
    if bs == [] then map[]
    else
      var m := KeyValuePairs(bs[..|bs| - 1], all);
      match PairOf(bs[|bs| - 1], all)
      case Some(kv) => m[kv.0 := kv.1]
      case None => m
  }

  /** `b.get('Page', 1)` */
  function PageOf(b: Block): int
  {
    b.page.GetOr(1)
  }

  /** The set of pages the blocks are on: `set(b.get('Page', 1) for b in blocks)`. */
  function Pages(bs: seq<Block>): set<int>
  {
    set i | 0 <= i < |bs| :: PageOf(bs[i])
  }

  /** One more block adds its page, and nothing else, to the set. */
  lemma PagesSnoc(bs: seq<Block>, b: Block)
    ensures Pages(bs + [b]) == Pages(bs) + {PageOf(b)}
  {
    var all := bs + [b];
    forall p | p in Pages(all) ensures p in Pages(bs) + {PageOf(b)} {
      var i :| 0 <= i < |all| && PageOf(all[i]) == p;
      if i < |bs| {
        assert all[i] == bs[i];
      }
    }
    forall p | p in Pages(bs) ensures p in Pages(all) {
      var i :| 0 <= i < |bs| && PageOf(bs[i]) == p;
      assert all[i] == bs[i];
    }
    assert all[|bs|] == b;
  }

  /** `len(set(b.get('Page', 1) for b in blocks))` */
  function PageCount(bs: seq<Block>): nat
  {
    |Pages(bs)|
  }

  /** The confidences the blocks carry, in order. */
  function Confidences(bs: seq<Block>): seq<real>
  {
    if bs == [] then []
    else Confidences(bs[..|bs| - 1]) + (match bs[|bs| - 1].confidence case Some(c) => [c] case None => [])
  }

  function Sum(xs: seq<real>): real
  {
    if xs == [] then 0.0 else Sum(xs[..|xs| - 1]) + xs[|xs| - 1]
  }

  /** The arithmetic mean, 0 for no values. */
  function Mean(xs: seq<real>): real
  {
    if xs == [] then 0.0 else Sum(xs) / (|xs| as real)
  }

  /** `calculate_average_confidence`, without the rounding to two decimals. */
  function AverageConfidence(bs: seq<Block>): real
  {
    Mean(Confidences(bs))
  }

  /** The extraction record for a successful OCR response. */
  function ExtractionOf(blocks: seq<Block>): Extraction
  {
    Extraction(Join(LineTexts(blocks), " "), KeyValuePairs(blocks, blocks), PageCount(blocks),
               Some(AverageConfidence(blocks)), None)
  }

  /** The fallback record when the OCR call raises. */
  function FailedExtraction(message: string): Extraction
  {
    Extraction("", map[], 0, None, Some(message))
  }

  /**
    `extract_text_from_document`, given the OCR service's answer (the blocks,
    or the message of the exception it raised).
   */
  method ExtractTextFromDocument(ocr: Result<seq<Block>, string>) returns (ex: Extraction)
    ensures ocr.Failure? ==> ex == FailedExtraction(ocr.error)
    ensures ocr.Success? ==> ex == ExtractionOf(ocr.value)
  {
    if ocr.Failure? {
      return FailedExtraction(ocr.error);
    }
    var blocks := ocr.value;
    var fullText: seq<string> := [];
    var keyValuePairs: map<string, string> := map[];
    var i := 0;
    while i < |blocks|
      invariant 0 <= i <= |blocks|
      invariant fullText == LineTexts(blocks[..i])
      invariant keyValuePairs == KeyValuePairs(blocks[..i], blocks)
    {
      var block := blocks[i];
      assert blocks[..i + 1][..i] == blocks[..i];
      if block.blockType == "LINE" {
        fullText := fullText + [block.text];
      } else if block.blockType == "KEY_VALUE_SET" {
        if "KEY" in block.entityTypes {
          var keyText := ExtractTextFromRelationship(block, blocks);
          var valueText := ExtractValueText(block, blocks);
          if keyText != "" && valueText.Some? && valueText.value != "" {
            keyValuePairs := keyValuePairs[keyText := valueText.value];
          }
        }
      }
      i := i + 1;
    }
    assert blocks[..i] == blocks;
    ex := Extraction(Join(fullText, " "), keyValuePairs, PageCount(blocks),
                     Some(AverageConfidence(blocks)), None);
  }

  // ---------------------------------------------------------------------------
  // Properties of the extraction
  // ---------------------------------------------------------------------------

  /** Full text takes exactly the LINE blocks, in input order. */
  lemma {:induction false} LineTextsAppend(bs1: seq<Block>, bs2: seq<Block>)
    ensures LineTexts(bs1 + bs2) == LineTexts(bs1) + LineTexts(bs2)
  {
    if bs2 == [] {
      assert bs1 + bs2 == bs1;
    } else {
      assert (bs1 + bs2)[..|bs1 + bs2| - 1] == bs1 + bs2[..|bs2| - 1];
      LineTextsAppend(bs1, bs2[..|bs2| - 1]);
    }
  }

  /** Without LINE blocks the full text is empty. */
  lemma {:induction false} NoLinesNoText(bs: seq<Block>)
    requires forall i :: 0 <= i < |bs| ==> bs[i].blockType != "LINE"
    ensures LineTexts(bs) == [] && ExtractionOf(bs).fullText == ""
  {
    if bs != [] {
      NoLinesNoText(bs[..|bs| - 1]);
    }
  }

  /** The line texts are the LINE blocks' `Text`, one per LINE block. */
  lemma {:induction false} LineTextsMembership(bs: seq<Block>, t: string)
    ensures t in LineTexts(bs) <==> exists i :: 0 <= i < |bs| && bs[i].blockType == "LINE" && bs[i].text == t
  {
    if bs != [] {
      var init := bs[..|bs| - 1];
      LineTextsMembership(init, t);
      assert forall i :: 0 <= i < |init| ==> init[i] == bs[i];
    }
  }

  /** The keys of the map are exactly the keys some block contributes a pair for. */
  lemma {:induction false} KeyValuePairsKeys(bs: seq<Block>, all: seq<Block>, k: string)
    ensures k in KeyValuePairs(bs, all) <==>
      exists i :: 0 <= i < |bs| && PairOf(bs[i], all).Some? && PairOf(bs[i], all).value.0 == k
  {
    if bs != [] {
      var init := bs[..|bs| - 1];
      KeyValuePairsKeys(init, all, k);
      assert forall i :: 0 <= i < |init| ==> init[i] == bs[i];
    }
  }

  /**
    Last write wins: the value under a key is that of the last block in input
    order that contributes a pair with that key.
   */
  lemma {:induction false} KeyValuePairsLastWins(bs: seq<Block>, all: seq<Block>, i: nat)
    requires i < |bs| && PairOf(bs[i], all).Some?
    requires forall j :: i < j < |bs| && PairOf(bs[j], all).Some? ==>
      PairOf(bs[j], all).value.0 != PairOf(bs[i], all).value.0
    ensures var kv := PairOf(bs[i], all).value;
      kv.0 in KeyValuePairs(bs, all) && KeyValuePairs(bs, all)[kv.0] == kv.1
  {
    var init := bs[..|bs| - 1];
    if i < |bs| - 1 {
      assert forall j :: 0 <= j < |init| ==> init[j] == bs[j];
      KeyValuePairsLastWins(init, all, i);
    }
  }

  /**
    A pair needs a KEY_VALUE_SET block with entity type KEY, a non-empty key
    text and a non-empty value text.
   */
  lemma PairOfRequires(b: Block, blocks: seq<Block>)
    requires PairOf(b, blocks).Some?
    ensures b.blockType == "KEY_VALUE_SET" && "KEY" in b.entityTypes
    ensures PairOf(b, blocks).value.0 == Join(ChildWords(b.relationships, blocks), " ") != ""
    ensures ValueText(b, blocks) == Some(PairOf(b, blocks).value.1) && PairOf(b, blocks).value.1 != ""
  {
  }

  /** A key block whose VALUE ids all fail to resolve adds no pair. */
  lemma UnresolvedValueNoPair(b: Block, blocks: seq<Block>)
    requires forall i, j :: (0 <= i < |b.relationships| && b.relationships[i].relType == "VALUE" &&
      0 <= j < |b.relationships[i].ids|) ==> Lookup(blocks, b.relationships[i].ids[j]).None?
    ensures PairOf(b, blocks).None?
  {
    ValueTextNone(b.relationships, blocks);
  }

  /** No page count without blocks, at least one page with, and never more pages than blocks. */
  lemma {:induction false} PageCountBounds(bs: seq<Block>)
    ensures PageCount(bs) == 0 <==> bs == []
    ensures PageCount(bs) <= |bs|
  {
    if bs != [] {
      var init := bs[..|bs| - 1];
      assert bs == init + [bs[|bs| - 1]];
      PageCountBounds(init);
      PagesSnoc(init, bs[|bs| - 1]);
    }
  }

  /** Any block whose `Page` is missing counts as being on page 1. */
  lemma MissingPageIsOne(bs: seq<Block>, i: nat)
    requires i < |bs| && bs[i].page.None?
    ensures 1 in Pages(bs)
  {
    assert PageOf(bs[i]) == 1;
  }

  /** No block carries a confidence: the average is 0. */
  lemma {:induction false} NoConfidenceIsZero(bs: seq<Block>)
    requires forall i :: 0 <= i < |bs| ==> bs[i].confidence.None?
    ensures Confidences(bs) == [] && AverageConfidence(bs) == 0.0
  {
    if bs != [] {
      NoConfidenceIsZero(bs[..|bs| - 1]);
    }
  }

  /** The confidences are those the blocks carry, one per block that carries one. */
  lemma {:induction false} ConfidencesMembership(bs: seq<Block>, c: real)
    ensures c in Confidences(bs) <==> exists i :: 0 <= i < |bs| && bs[i].confidence == Some(c)
  {
    if bs != [] {
      var init := bs[..|bs| - 1];
      ConfidencesMembership(init, c);
      assert forall i :: 0 <= i < |init| ==> init[i] == bs[i];
    }
  }

  /**
    The confidences of consecutive block lists follow one another, so with
    `ConfidencesSingle` every block that carries a confidence adds it once,
    in block order, however often the value repeats.
   */
  lemma {:induction false} ConfidencesAppend(bs1: seq<Block>, bs2: seq<Block>)
    ensures Confidences(bs1 + bs2) == Confidences(bs1) + Confidences(bs2)
  {
    if bs2 == [] {
      assert bs1 + bs2 == bs1;
    } else {
      assert (bs1 + bs2)[..|bs1 + bs2| - 1] == bs1 + bs2[..|bs2| - 1];
      ConfidencesAppend(bs1, bs2[..|bs2| - 1]);
    }
  }

  /** One block contributes its confidence when it carries one, and nothing otherwise. */
  lemma ConfidencesSingle(b: Block)
    ensures Confidences([b]) == if b.confidence.Some? then [b.confidence.value] else []
  {
    assert [b][..0] == [];
  }

  /** Averaging is over the list, not the set: a repeated confidence counts each time. */
  lemma AverageConfidenceExample()
    ensures var page := Some(1);
      AverageConfidence([
        Block("1", "LINE", "a", [], [], page, Some(90.0)),
        Block("2", "WORD", "a", [], [], page, Some(90.0)),
        Block("3", "PAGE", "", [], [], page, None),
        Block("4", "WORD", "b", [], [], page, Some(60.0))]) == 80.0
  {
    var page := Some(1);
    var b1 := Block("1", "LINE", "a", [], [], page, Some(90.0));
    var b2 := Block("2", "WORD", "a", [], [], page, Some(90.0));
    var b3 := Block("3", "PAGE", "", [], [], page, None);
    var b4 := Block("4", "WORD", "b", [], [], page, Some(60.0));
    var bs := [b1, b2, b3, b4];
    assert [b1][..0] == [];
    assert Confidences([b1]) == [90.0];
    assert [b1, b2][..1] == [b1];
    assert Confidences([b1, b2]) == [90.0, 90.0];
    assert [b1, b2, b3][..2] == [b1, b2];
    assert Confidences([b1, b2, b3]) == [90.0, 90.0];
    assert bs[..3] == [b1, b2, b3];
    assert Confidences(bs) == [90.0, 90.0, 60.0];
    var cs := [90.0, 90.0, 60.0];
    assert cs[..2] == [90.0, 90.0];
    assert cs[..2][..1] == [90.0];
    assert [90.0][..0] == [];
    assert Sum(cs) == 240.0;
  }

  lemma {:induction false} SumBounds(xs: seq<real>, lo: real, hi: real)
    requires forall i :: 0 <= i < |xs| ==> lo <= xs[i] <= hi
    ensures (|xs| as real) * lo <= Sum(xs) <= (|xs| as real) * hi
  {
    if xs != [] {
      SumBounds(xs[..|xs| - 1], lo, hi);
      assert (|xs| as real) * lo == ((|xs| - 1) as real) * lo + lo;
      assert (|xs| as real) * hi == ((|xs| - 1) as real) * hi + hi;
    }
  }

  /** The mean of values within bounds is within the same bounds. */
  lemma MeanBounds(xs: seq<real>, lo: real, hi: real)
    requires xs != []
    requires forall i :: 0 <= i < |xs| ==> lo <= xs[i] <= hi
    ensures lo <= Mean(xs) <= hi
  {
    SumBounds(xs, lo, hi);
    var n := |xs| as real;
    assert Mean(xs) * n == Sum(xs);
    assert lo * n <= Mean(xs) * n <= hi * n;
  }

  /**
    When every confidence lies in [0, 100] and some block carries one, the
    average lies in [0, 100] too.
   */
  lemma AverageConfidenceBounds(bs: seq<Block>)
    requires forall i :: 0 <= i < |bs| && bs[i].confidence.Some? ==> 0.0 <= bs[i].confidence.value <= 100.0
    requires exists i :: 0 <= i < |bs| && bs[i].confidence.Some?
    ensures 0.0 <= AverageConfidence(bs) <= 100.0
  {
    var cs := Confidences(bs);
    var i :| 0 <= i < |bs| && bs[i].confidence.Some?;
    ConfidencesMembership(bs, bs[i].confidence.value);
    forall k | 0 <= k < |cs| ensures 0.0 <= cs[k] <= 100.0 {
      ConfidencesMembership(bs, cs[k]);
    }
    MeanBounds(cs, 0.0, 100.0);
  }

  // ---------------------------------------------------------------------------
  // Text analysis
  // ---------------------------------------------------------------------------

  /** The projection of one detected entity the result keeps. */
  datatype Entity = Entity(text: string, entityType: string, score: real)
  /** The overall sentiment and the per-class scores. */
  datatype Sentiment = Sentiment(overall: string, scores: map<string, real>)
  /** The projection of one key phrase the result keeps. */
  datatype KeyPhrase = KeyPhrase(text: string, score: real)

  /** The `analysis` part of the output; absent fields are `None`. */
  datatype Analysis = Analysis(
    entities: Option<seq<Entity>>,
    sentiment: Option<Sentiment>,
    keyPhrases: Option<seq<KeyPhrase>>,
    error: Option<string>)

  const MinAnalysisLength: nat := 3
  const MaxAnalysisLength: nat := 5000
  const MaxKeyPhrases: nat := 10
  const TooShortMessage: string := "Text too short for analysis"

  /** The text sent to the analysis service: its first 5000 characters. */
  function Truncate(text: string): (r: string)
    ensures |r| <= MaxAnalysisLength && r <= text
    ensures |text| <= MaxAnalysisLength ==> r == text
    ensures |text| > MaxAnalysisLength ==> |r| == MaxAnalysisLength
  {
    if |text| <= MaxAnalysisLength then text else text[..MaxAnalysisLength]
  }

  /** The first 10 key phrases, in the service's order. */
  function TopPhrases(ps: seq<KeyPhrase>): (r: seq<KeyPhrase>)
    ensures |r| <= MaxKeyPhrases && r <= ps
    ensures |ps| <= MaxKeyPhrases ==> r == ps
    ensures |ps| > MaxKeyPhrases ==> |r| == MaxKeyPhrases
  {
    if |ps| <= MaxKeyPhrases then ps else ps[..MaxKeyPhrases]
  }

  /** The guard of `analyze_text`: empty, or fewer than 3 characters once stripped. */
  predicate TooShort(text: string)
  {
    text == "" || |Strip(text)| < MinAnalysisLength
  }

  /**
    `analyze_text`, given the three analysis calls as functions of the text
    they are sent (each answers with its result or the exception's message).
    The calls are made in order and the first failure ends the analysis,
    keeping what earlier calls produced.
   */
  function AnalyzeText(
    text: string,
    detectEntities: string -> Result<seq<Entity>, string>,
    detectSentiment: string -> Result<Sentiment, string>,
    detectKeyPhrases: string -> Result<seq<KeyPhrase>, string>): Analysis
  {
    if TooShort(text) then Analysis(None, None, None, Some(TooShortMessage))
    else
      var sent := Truncate(text);
      match detectEntities(sent)
      case Failure(e) => Analysis(None, None, None, Some(e))
      case Success(entities) =>
        match detectSentiment(sent)
        case Failure(e) => Analysis(Some(entities), None, None, Some(e))
        case Success(sentiment) =>
          match detectKeyPhrases(sent)
          case Failure(e) => Analysis(Some(entities), Some(sentiment), None, Some(e))
          case Success(phrases) => Analysis(Some(entities), Some(sentiment), Some(TopPhrases(phrases)), None)
  }

  /**
    The guard holds exactly when fewer than 3 characters remain once leading
    and trailing whitespace is stripped, so in particular for text that is
    all whitespace or shorter than 3 characters.
   */
  lemma TooShortIff(text: string)
    ensures TooShort(text) <==> |Strip(text)| < MinAnalysisLength
    ensures (forall i :: 0 <= i < |text| ==> IsSpace(text[i])) ==> TooShort(text)
    ensures |text| < MinAnalysisLength ==> TooShort(text)
  {
    StripEmptyIff(text);
  }

  /** Text that fails the guard gets only the "too short" error, and no call is made. */
  lemma AnalyzeTextTooShort(
    text: string,
    detectEntities: string -> Result<seq<Entity>, string>,
    detectSentiment: string -> Result<Sentiment, string>,
    detectKeyPhrases: string -> Result<seq<KeyPhrase>, string>)
    requires TooShort(text)
    ensures AnalyzeText(text, detectEntities, detectSentiment, detectKeyPhrases) ==
      Analysis(None, None, None, Some(TooShortMessage))
  {
  }

  /**
    Text that passes the guard is sent, cut to its first 5000 characters, to
    every call that is made. The calls run in order; the first failure ends
    the analysis with that call's message, keeping the results of the calls
    before it and nothing after. When all three succeed there is no error,
    and the key phrases kept are the first 10 of the answer (all of them when
    there are at most 10).
   */
  lemma AnalyzeTextSends(
    text: string,
    detectEntities: string -> Result<seq<Entity>, string>,
    detectSentiment: string -> Result<Sentiment, string>,
    detectKeyPhrases: string -> Result<seq<KeyPhrase>, string>)
    requires !TooShort(text)
    ensures var a := AnalyzeText(text, detectEntities, detectSentiment, detectKeyPhrases);
      var sent := text[..if |text| < MaxAnalysisLength then |text| else MaxAnalysisLength];
      var e := detectEntities(sent);
      var st := detectSentiment(sent);
      var k := detectKeyPhrases(sent);
      (e.Failure? ==> a == Analysis(None, None, None, Some(e.error))) &&
      (e.Success? && st.Failure? ==> a == Analysis(Some(e.value), None, None, Some(st.error))) &&
      (e.Success? && st.Success? && k.Failure? ==>
         a == Analysis(Some(e.value), Some(st.value), None, Some(k.error))) &&
      (e.Success? && st.Success? && k.Success? ==>
         a == Analysis(Some(e.value), Some(st.value),
                       Some(k.value[..if |k.value| < MaxKeyPhrases then |k.value| else MaxKeyPhrases]), None))
  {
    var sent := text[..if |text| < MaxAnalysisLength then |text| else MaxAnalysisLength];
    assert Truncate(text) == sent;
    var a := AnalyzeText(text, detectEntities, detectSentiment, detectKeyPhrases);
    match detectEntities(sent)
    case Failure(e) =>
      assert a == Analysis(None, None, None, Some(e));
    case Success(entities) =>
      match detectSentiment(sent)
      case Failure(e) =>
        assert a == Analysis(Some(entities), None, None, Some(e));
      case Success(sentiment) =>
        match detectKeyPhrases(sent)
        case Failure(e) =>
          assert a == Analysis(Some(entities), Some(sentiment), None, Some(e));
        case Success(phrases) =>
          assert TopPhrases(phrases) == phrases[..if |phrases| < MaxKeyPhrases then |phrases| else MaxKeyPhrases];
          assert a == Analysis(Some(entities), Some(sentiment), Some(TopPhrases(phrases)), None);
  }

  // ---------------------------------------------------------------------------
  // The handler
  // ---------------------------------------------------------------------------

  const ProcessedPrefix: string := "processed/"
  const JsonSuffix: string := ".json"

  /** `key.split('/')[-1]`: the last path segment of an object key. */
  function BaseName(key: string): string
  {
    var parts := Split(key, '/');
    parts[|parts| - 1]
  }

  /** `f"processed/{key.split('/')[-1]}.json"` */
  function ResultKey(key: string): string
  {
    ProcessedPrefix + BaseName(key) + JsonSuffix
  }

  /**
    The stored name is "processed/", a name free of '/', and ".json"; that
    name ends the input key and is either the whole key or what follows the
    key's last '/'.
   */
  lemma ResultKeyShape(key: string)
    ensures var r := ResultKey(key); var name := r[|ProcessedPrefix|..|r| - |JsonSuffix|];
      |ProcessedPrefix| + |JsonSuffix| <= |r| &&
      r[..|ProcessedPrefix|] == ProcessedPrefix && r[|r| - |JsonSuffix|..] == JsonSuffix &&
      '/' !in name && |name| <= |key| && key[|key| - |name|..] == name &&
      (|name| < |key| ==> key[|key| - |name| - 1] == '/')
  {
    SplitLast(key, '/');
    var name := BaseName(key);
    var r := ResultKey(key);
    assert r[|ProcessedPrefix|..|r| - |JsonSuffix|] == name;
  }

  /** The outcome of the handler: the stored record and its key, or the error body of a 500 response. */
  datatype FinalResult = FinalResult(documentName: string, extraction: Extraction, analysis: Analysis, status: string)
  datatype HandlerResponse = Saved(resultKey: string, result: FinalResult) | HandlerError(error: string)

  function StatusCode(r: HandlerResponse): int
  {
    if r.Saved? then 200 else 500
  }

  /**
    `lambda_handler`: the object key read from the upload event (or the
    exception reading it raised), the OCR and analysis answers, and the
    outcome of storing the record (the exception's message, if any).
   */
  method LambdaHandler(
    objectKey: Result<string, string>,
    ocr: Result<seq<Block>, string>,
    detectEntities: string -> Result<seq<Entity>, string>,
    detectSentiment: string -> Result<Sentiment, string>,
    detectKeyPhrases: string -> Result<seq<KeyPhrase>, string>,
    putError: Option<string>) returns (response: HandlerResponse)
    ensures objectKey.Failure? ==> response == HandlerError(objectKey.error)
    ensures objectKey.Success? && putError.Some? ==> response == HandlerError(putError.value)
    ensures objectKey.Success? && putError.None? ==>
      var ex := if ocr.Success? then ExtractionOf(ocr.value) else FailedExtraction(ocr.error);
      response == Saved(ResultKey(objectKey.value),
        FinalResult(objectKey.value, ex,
          AnalyzeText(ex.fullText, detectEntities, detectSentiment, detectKeyPhrases), "success"))
  {
    if objectKey.Failure? {
      return HandlerError(objectKey.error);
    }
    var key := objectKey.value;
    var extracted := ExtractTextFromDocument(ocr);
    var analysis := AnalyzeText(extracted.fullText, detectEntities, detectSentiment, detectKeyPhrases);
    var finalResult := FinalResult(key, extracted, analysis, "success");
    var resultKey := ResultKey(key);
    if putError.Some? {
      return HandlerError(putError.value);
    }
    response := Saved(resultKey, finalResult);
  }

  /**
    An OCR failure still yields a stored record: empty text, no pairs, page
    count 0, the error recorded, and an analysis holding only the "too short"
    error. The record's status is "success" all the same.
   */
  lemma OcrFailureRecord(
    key: string, message: string,
    detectEntities: string -> Result<seq<Entity>, string>,
    detectSentiment: string -> Result<Sentiment, string>,
    detectKeyPhrases: string -> Result<seq<KeyPhrase>, string>)
    ensures var ex := FailedExtraction(message);
      var a := AnalyzeText(ex.fullText, detectEntities, detectSentiment, detectKeyPhrases);
      ex.fullText == "" && ex.keyValuePairs == map[] && ex.pageCount == 0 &&
      ex.confidence.None? && ex.error == Some(message) &&
      a == Analysis(None, None, None, Some(TooShortMessage))
  {
  }
}
