/**
 * `process_row`: one firm-year row of classification cells becomes four
 * parallel per-patent lists (method 1 quality; method 2 N, n and quality)
 * and a row-wide count of main groups (method 3).
 *
 * The specification is the function `RowSpec`; the method `ProcessRow`
 * follows the loops of the program and is proved to compute it.
 */
module RowProcessing {
  import opened Wrappers
  import opened Text
  import opened Patterns
  import opened ClassCode
  import opened Counting
  import opened Diversity

  /**
   * A row, by category letter: a letter that is not a key is a column the
   * table lacks, `None` is a missing (NaN) cell, `Some(s)` is the cell's text.
   */
  type Row = map<char, Option<string>>

  /** The eight categories whose cells are concatenated, in this order. */
  const Categories: string := "ABCDEFGH"

  /** What a row yields: four lists, one entry per kept patent block, and the method 3 counts. */
  datatype RowMetrics = RowMetrics(
    method1Quality: seq<real>,
    method2SubclassCount: seq<nat>,
    method2GroupCount: seq<nat>,
    method2Quality: seq<real>,
    method3Counts: map<string, nat>)

  /** The empty result, for a row without any text. */
  const NoMetrics := RowMetrics([], [], [], [], map[])

  /** The text a category contributes: its cell if present and not missing, else nothing. */
  function CellText(row: Row, col: char): (r: string)
    ensures col in row && row[col].Some? ==> r == row[col].value
    ensures r != [] ==> col in row && row[col] == Some(r)
  {
    if col in row && row[col].Some? then row[col].value else []
  }

  /**
   * The row's cells for `cols`, concatenated in that order (no category
   * gives no text); `RowTextEmpty` and `RowTextConcat` state the rest.
   */
  function RowText(row: Row, cols: string): (r: string)
    ensures cols == [] ==> r == []
    decreases |cols|
  {
    if cols == [] then []
    else RowText(row, cols[..|cols| - 1]) + CellText(row, cols[|cols| - 1])
  }

  /** The codes parsed from a block's tokens, in order; empty and unparsable tokens are dropped. */
  function ParsedCodes(tokens: seq<string>): (r: seq<Code>)
    ensures |r| <= |tokens|
    ensures forall k :: 0 <= k < |r| ==> WellFormed(r[k])
    decreases |tokens|
  {
    if tokens == [] then []
    else
      var init := ParsedCodes(tokens[..|tokens| - 1]);
      var s := Strip(tokens[|tokens| - 1]);
      ExtractedShape(s);
      if s != [] && ExtractPatentParts(s).Some? then init + [ExtractPatentParts(s).value] else init
  }

  /** The codes of one block's content, whose tokens are separated by ';'. */
  function BlockCodes(content: string): (r: seq<Code>)
    ensures |r| <= |Split(content, ';')|
    ensures forall k :: 0 <= k < |r| ==> WellFormed(r[k])
  {
    ParsedCodes(Split(content, ';'))
  }

  /** Every kept block has at least one code. */
  predicate NonEmptyBlocks(kept: seq<seq<Code>>) {
    forall k :: 0 <= k < |kept| ==> kept[k] != []
  }

  /** Every code of every kept block is well formed. */
  predicate WellFormedBlocks(kept: seq<seq<Code>>) {
    forall k, j :: 0 <= k < |kept| && 0 <= j < |kept[k]| ==> WellFormed(kept[k][j])
  }

  /** The codes of the blocks that yield at least one code, in order. */
  function Kept(blocks: seq<string>): (kept: seq<seq<Code>>)
    ensures NonEmptyBlocks(kept) && WellFormedBlocks(kept)
    ensures |kept| <= |blocks|
    decreases |blocks|
  {
    if blocks == [] then []
    else
      var codes := BlockCodes(blocks[|blocks| - 1]);
      Kept(blocks[..|blocks| - 1]) + if codes == [] then [] else [codes]
  }

  /** Method 1 of each kept block. */
  function Method1s(kept: seq<seq<Code>>): (r: seq<real>)
    ensures |r| == |kept|
    requires NonEmptyBlocks(kept)
    decreases |kept|
  {
    if kept == [] then []
    else Method1s(kept[..|kept| - 1]) + [Method1Quality(Mains(kept[|kept| - 1]))]
  }

  /** N of each kept block. */
  function SubclassCounts(kept: seq<seq<Code>>): (r: seq<nat>)
    ensures |r| == |kept|
    decreases |kept|
  {
    if kept == [] then []
    else SubclassCounts(kept[..|kept| - 1]) + [SubclassCount(kept[|kept| - 1])]
  }

  /** n of each kept block. */
  function GroupCounts(kept: seq<seq<Code>>): (r: seq<nat>)
    ensures |r| == |kept|
    decreases |kept|
  {
    if kept == [] then []
    else GroupCounts(kept[..|kept| - 1]) + [GroupCount(kept[|kept| - 1])]
  }

  /** Method 2 of each kept block. */
  function Method2s(kept: seq<seq<Code>>): (r: seq<real>)
    ensures |r| == |kept|
    requires NonEmptyBlocks(kept)
    decreases |kept|
  {
    if kept == [] then []
    else Method2s(kept[..|kept| - 1]) + [Method2Quality(kept[|kept| - 1])]
  }

  /** The main groups of all kept blocks, block after block. */
  function AllMains(kept: seq<seq<Code>>): (r: seq<string>)
    ensures |r| == TotalCodes(kept)
    decreases |kept|
  {
    if kept == [] then [] else AllMains(kept[..|kept| - 1]) + Mains(kept[|kept| - 1])
  }

  /** The number of codes in all kept blocks. */
  function TotalCodes(kept: seq<seq<Code>>): (r: nat)
    ensures NonEmptyBlocks(kept) ==> r >= |kept|
    decreases |kept|
  {
    if kept == [] then 0 else TotalCodes(kept[..|kept| - 1]) + |kept[|kept| - 1]|
  }

  /** The metrics of a sequence of kept blocks. */
  function Metrics(kept: seq<seq<Code>>): (r: RowMetrics)
    requires NonEmptyBlocks(kept)
    ensures |r.method1Quality| == |r.method2SubclassCount| == |r.method2GroupCount|
         == |r.method2Quality| == |kept|
    ensures kept == [] ==> r == NoMetrics
  {
    RowMetrics(Method1s(kept), SubclassCounts(kept), GroupCounts(kept), Method2s(kept), Tally(AllMains(kept)))
  }

  /** The kept blocks of a row: the `{...}` blocks of its text that yield a code. */
  function RowBlocks(row: Row): (r: seq<seq<Code>>)
    ensures |r| <= |FindAll(RowText(row, Categories), '{', '}')|
  {
    Kept(FindAll(RowText(row, Categories), '{', '}'))
  }

  /** What `process_row` computes for a row. */
  function RowSpec(row: Row): (r: RowMetrics)
    ensures |r.method1Quality| == |r.method2SubclassCount| == |r.method2GroupCount|
         == |r.method2Quality| == |RowBlocks(row)|
    ensures RowText(row, Categories) == [] ==> r == NoMetrics
  {
    Metrics(RowBlocks(row))
  }

  /** The loop over the categories: the cells present, concatenated in order. */
  method ConcatenateCells(row: Row) returns (text: string)
    ensures text == RowText(row, Categories)
  {
    text := "";
    var i := 0;
    while i < |Categories|
      invariant 0 <= i <= |Categories|
      invariant text == RowText(row, Categories[..i])
    {
      var col := Categories[i];
      if col in row && row[col].Some? {
        text := text + row[col].value;
      }
      assert Categories[..i + 1][..i] == Categories[..i];
      i := i + 1;
    }
    assert Categories[..|Categories|] == Categories;
  }

  /**
   * The loop over one block's tokens: strip each one and keep what parses.
   * The codes it returns are well formed, as `BlockCodes` states.
   */
  method ParseBlock(content: string) returns (parts: seq<Code>)
    ensures parts == BlockCodes(content)
  {
    var tokens := Split(content, ';');
    parts := [];
    var j := 0;
    while j < |tokens|
      invariant 0 <= j <= |tokens|
      invariant parts == ParsedCodes(tokens[..j])
    {
      var sClean := Strip(tokens[j]);
      ParsedAppend(tokens, j);
      if sClean != [] {
        var parsed := ExtractPatentParts(sClean);
        if parsed.Some? {
          parts := parts + [parsed.value];
        }
      }
      j := j + 1;
    }
    assert tokens[..|tokens|] == tokens;
  }

  /**
   * Method 1 of a block with main groups `mains`: one minus the sum of the
   * squared shares, accumulated over the counts of `Counter(mains)`.
   */
  method ConcentrationComplement(mains: seq<string>) returns (q: real)
    requires |mains| > 0
    ensures q == Method1Quality(mains)
    ensures 0.0 <= q < 1.0
    ensures q == 0.0 <==> |ToSet(mains)| == 1
  {
    var p := |mains|;
    var groupCounts := Tally(mains);
    var groups := Distinct(mains);
    var sumSqRatio := 0.0;
    var k := 0;
    while k < |groups|
      invariant 0 <= k <= |groups|
      invariant sumSqRatio == SumSquaredShares(groups[..k], multiset(mains), p)
    {
      assert groups[k] in mains;
      var t := groupCounts[groups[k]];
      SharesAppend(groups, multiset(mains), p, k, t);
      sumSqRatio := sumSqRatio + (t as real / p as real) * (t as real / p as real);
      k := k + 1;
    }
    assert groups[..|groups|] == groups;
    q := 1.0 - sumSqRatio;
    Method1Bounds(mains);
  }

  /** The scores of one non-empty block: method 1, and N, n and method 2. */
  method ScoreBlock(parts: seq<Code>) returns (q1: real, nSub: nat, nGroup: nat, q2: real)
    requires parts != []
    ensures q1 == Method1Quality(Mains(parts))
    ensures nSub == SubclassCount(parts) && nGroup == GroupCount(parts)
    ensures q2 == Method2Quality(parts)
  {
    // Method 1; the block has p >= 1 codes.
    var mains := Mains(parts);
    q1 := ConcentrationComplement(mains);
    // Method 2; n >= 1 because the block is not empty.
    nSub := |ToSet(Subs(parts))|;
    nGroup := |ToSet(mains)|;
    assert mains[0] in ToSet(mains);
    q2 := nSub as real + 1.0 - 1.0 / nGroup as real;
  }

  /** The keys summed so far grow by one key, adding its squared share. */
  lemma SharesAppend(keys: seq<string>, m: multiset<string>, p: nat, k: nat, t: nat)
    requires p > 0 && k < |keys| && t == m[keys[k]]
    ensures SumSquaredShares(keys[..k + 1], m, p)
         == SumSquaredShares(keys[..k], m, p) + (t as real / p as real) * (t as real / p as real)
  {
    assert keys[..k + 1][..k] == keys[..k];
  }

  /** The tokens seen so far grow by one token, whose code is kept if it parses. */
  lemma ParsedAppend(tokens: seq<string>, j: nat)
    requires j < |tokens|
    ensures var s := Strip(tokens[j]);
      ParsedCodes(tokens[..j + 1])
      == ParsedCodes(tokens[..j]) + if s != [] && ExtractPatentParts(s).Some? then [ExtractPatentParts(s).value] else []
  {
    assert tokens[..j + 1][..j] == tokens[..j];
  }

  /** The blocks seen so far grow by one block, kept if it yields a code. */
  lemma KeptAppend(blocks: seq<string>, b: nat)
    requires b < |blocks|
    ensures Kept(blocks[..b + 1])
         == Kept(blocks[..b]) + if BlockCodes(blocks[b]) == [] then [] else [BlockCodes(blocks[b])]
  {
    assert blocks[..b + 1][..b] == blocks[..b];
  }

  /** Appending one kept block appends its scores to each list. */
  lemma MetricsAppend(kept: seq<seq<Code>>, b: seq<Code>)
    requires NonEmptyBlocks(kept) && b != []
    ensures NonEmptyBlocks(kept + [b])
    ensures Method1s(kept + [b]) == Method1s(kept) + [Method1Quality(Mains(b))]
    ensures SubclassCounts(kept + [b]) == SubclassCounts(kept) + [SubclassCount(b)]
    ensures GroupCounts(kept + [b]) == GroupCounts(kept) + [GroupCount(b)]
    ensures Method2s(kept + [b]) == Method2s(kept) + [Method2Quality(b)]
    ensures AllMains(kept + [b]) == AllMains(kept) + Mains(b)
  {
    var k2 := kept + [b];
    assert k2[..|kept|] == kept;
    assert k2[|kept|] == b;
  }

  /**
   * The loop over a row's blocks: each block that yields a code appends its
   * scores to the four lists and its main groups to the method 3 collection.
   */
  method ScoreBlocks(blocks: seq<string>) returns (r: RowMetrics)
    ensures r == Metrics(Kept(blocks))
  {
    var q1List: seq<real> := [];
    var nSubList: seq<nat> := [];
    var nGroupList: seq<nat> := [];
    var q2List: seq<real> := [];
    var allMains: seq<string> := [];
    ghost var kept: seq<seq<Code>> := [];

    var b := 0;
    while b < |blocks|
      invariant 0 <= b <= |blocks|
      invariant kept == Kept(blocks[..b])
      invariant q1List == Method1s(kept) && nSubList == SubclassCounts(kept)
      invariant nGroupList == GroupCounts(kept) && q2List == Method2s(kept)
      invariant allMains == AllMains(kept)
    {
      KeptAppend(blocks, b);
      var parts := ParseBlock(blocks[b]);
      if parts != [] {
        var q1, nSub, nGroup, q2 := ScoreBlock(parts);
        MetricsAppend(kept, parts);
        q1List := q1List + [q1];
        nSubList := nSubList + [nSub];
        nGroupList := nGroupList + [nGroup];
        q2List := q2List + [q2];
        allMains := allMains + Mains(parts);
        kept := kept + [parts];
      }
      b := b + 1;
    }
    assert blocks[..|blocks|] == blocks;
    // Method 3: one `Counter` over the main groups of the whole row.
    var method3Counts := Tally(allMains);
    r := RowMetrics(q1List, nSubList, nGroupList, q2List, method3Counts);
  }

  /** `process_row`: concatenate the cells, find the `{...}` blocks, score them. */
  method ProcessRow(row: Row) returns (r: RowMetrics)
    ensures r == RowSpec(row)
  {
    var fullText := ConcatenateCells(row);
    if fullText == [] {
      assert Metrics([]) == NoMetrics;
      return NoMetrics;
    }
    var blocks := FindAll(fullText, '{', '}');
    r := ScoreBlocks(blocks);
  }
}

/** What `process_row` promises about a row, stated over its specification `RowSpec`. */
module RowProperties {
  import opened Wrappers
  import opened Text
  import opened Patterns
  import opened ClassCode
  import opened Counting
  import opened Diversity
  import opened RowProcessing

  /** Categories whose cells are all absent or missing contribute no text. */
  lemma {:induction false} NoCellsNoText(row: Row, cols: string)
    requires forall k :: 0 <= k < |cols| ==> cols[k] !in row || row[cols[k]].None?
    ensures RowText(row, cols) == []
    decreases |cols|
  {
    if cols != [] {
      NoCellsNoText(row, cols[..|cols| - 1]);
    }
  }

  /** The text of `cols` is empty exactly when none of those categories contributes any text. */
  lemma {:induction false} RowTextEmpty(row: Row, cols: string)
    ensures RowText(row, cols) == [] <==> forall k :: 0 <= k < |cols| ==> CellText(row, cols[k]) == []
    decreases |cols|
  {
    if cols != [] {
      var n := |cols| - 1;
      RowTextEmpty(row, cols[..n]);
      assert forall k :: 0 <= k < n ==> cols[..n][k] == cols[k];
    }
  }

  /** A missing (NaN) cell and a column the table lacks contribute alike: nothing. */
  lemma {:induction false} MissingLikeAbsent(row: Row, col: char, cols: string)
    ensures RowText(row[col := None], cols) == RowText(row - {col}, cols)
    decreases |cols|
  {
    if cols != [] {
      MissingLikeAbsent(row, col, cols[..|cols| - 1]);
    }
  }

  /**
   * The text of a list of categories is the text of its first part followed
   * by that of the rest: cells are concatenated in the order of `cols`.
   */
  lemma {:induction false} RowTextConcat(row: Row, cols1: string, cols2: string)
    ensures RowText(row, cols1 + cols2) == RowText(row, cols1) + RowText(row, cols2)
    decreases |cols2|
  {
    if cols2 == [] {
      assert cols1 + cols2 == cols1;
    } else {
      var init := cols2[..|cols2| - 1];
      RowTextConcat(row, cols1, init);
      assert (cols1 + cols2)[..|cols1 + cols2| - 1] == cols1 + init;
    }
  }

  /**
   * A row without any cell among A..H (or with nothing but empty cells)
   * yields four empty lists and an empty count map.
   */
  lemma EmptyRow(row: Row)
    requires RowText(row, Categories) == []
    ensures RowSpec(row) == NoMetrics
  {
    assert FindAll([], '{', '}') == [];
  }

  /** A row whose eight cells are all absent or missing yields nothing. */
  lemma NoCellsEmptyRow(row: Row)
    requires forall c :: c in Categories ==> c !in row || row[c].None?
    ensures RowSpec(row) == NoMetrics
  {
    assert forall k :: 0 <= k < |Categories| ==> Categories[k] in Categories;
    NoCellsNoText(row, Categories);
    EmptyRow(row);
  }

  /** Each list's i-th entry is the score of the i-th kept block. */
  lemma {:induction false} ListsAt(kept: seq<seq<Code>>, i: nat)
    requires NonEmptyBlocks(kept) && i < |kept|
    ensures Method1s(kept)[i] == Method1Quality(Mains(kept[i]))
    ensures SubclassCounts(kept)[i] == SubclassCount(kept[i])
    ensures GroupCounts(kept)[i] == GroupCount(kept[i])
    ensures Method2s(kept)[i] == Method2Quality(kept[i])
    decreases |kept|
  {
    if i < |kept| - 1 {
      var init := kept[..|kept| - 1];
      ListsAt(init, i);
      assert init[i] == kept[i];
    }
  }

  /** Every kept entry is the codes of some block. */
  lemma {:induction false} KeptFromBlocks(blocks: seq<string>, i: nat)
    requires i < |Kept(blocks)|
    ensures exists j :: 0 <= j < |blocks| && BlockCodes(blocks[j]) == Kept(blocks)[i]
    decreases |blocks|
  {
    var init := blocks[..|blocks| - 1];
    var codes := BlockCodes(blocks[|blocks| - 1]);
    assert Kept(blocks) == Kept(init) + if codes == [] then [] else [codes];
    if i < |Kept(init)| {
      KeptFromBlocks(init, i);
      var j :| 0 <= j < |init| && BlockCodes(init[j]) == Kept(init)[i];
      assert blocks[j] == init[j];
    } else {
      assert BlockCodes(blocks[|blocks| - 1]) == Kept(blocks)[i];
    }
  }

  /** Every block that yields a code is kept. */
  lemma {:induction false} BlocksKept(blocks: seq<string>, j: nat)
    requires j < |blocks| && BlockCodes(blocks[j]) != []
    ensures exists i :: 0 <= i < |Kept(blocks)| && Kept(blocks)[i] == BlockCodes(blocks[j])
    decreases |blocks|
  {
    var init := blocks[..|blocks| - 1];
    var codes := BlockCodes(blocks[|blocks| - 1]);
    var kept := Kept(blocks);
    assert kept == Kept(init) + if codes == [] then [] else [codes];
    if j < |init| {
      BlocksKept(init, j);
      var i :| 0 <= i < |Kept(init)| && Kept(init)[i] == BlockCodes(init[j]);
      assert blocks[j] == init[j] && kept[i] == Kept(init)[i];
    } else {
      assert j == |blocks| - 1 && codes != [];
      assert kept == Kept(init) + [codes];
      assert kept[|Kept(init)|] == codes;
    }
  }

  /**
   * The lists of a row have equal length, one entry per `{...}` block of its
   * text that yields at least one code, and each entry is that block's score.
   */
  lemma RowListsAligned(row: Row)
    ensures var r := RowSpec(row);
      && |r.method1Quality| == |r.method2SubclassCount| == |r.method2GroupCount|
         == |r.method2Quality| == |RowBlocks(row)|
         <= |FindAll(RowText(row, Categories), '{', '}')|
  {
  }

  /** A token that is empty after stripping, or that does not parse, adds no code to its block. */
  lemma SkippedToken(tokens: seq<string>, t: string)
    requires Strip(t) == [] || ExtractPatentParts(Strip(t)).None?
    ensures ParsedCodes(tokens + [t]) == ParsedCodes(tokens)
  {
    assert (tokens + [t])[..|tokens|] == tokens;
  }

  /** A block that yields no code adds nothing to any list. */
  lemma SkippedBlock(blocks: seq<string>, b: string)
    requires BlockCodes(b) == []
    ensures Kept(blocks + [b]) == Kept(blocks)
  {
    assert (blocks + [b])[..|blocks|] == blocks;
  }

  /** Text before the first '{' contributes no block. */
  lemma TextBeforeBlocks(t: string, rest: string)
    requires '{' !in t
    ensures FindAll(t + rest, '{', '}') == FindAll(rest, '{', '}')
    ensures Kept(FindAll(t + rest, '{', '}')) == Kept(FindAll(rest, '{', '}'))
  {
    FindAllSkip(t, rest, '{', '}');
  }

  /** A complete `{...}` block is found whole, ahead of the blocks after it. */
  lemma BlockThenRest(inner: string, rest: string)
    requires '}' !in inner && '\n' !in inner
    ensures FindAll("{" + inner + "}" + rest, '{', '}') == [inner] + FindAll(rest, '{', '}')
  {
    FindAllGroup(inner, rest, '{', '}');
  }

  /**
   * Each method 1 entry is `1 - sum (t / p)^2` of its block, lies in [0, 1),
   * and is 0 exactly when the block has a single distinct main group.
   */
  lemma RowMethod1(row: Row, i: nat)
    requires i < |RowBlocks(row)|
    ensures var q := RowSpec(row).method1Quality[i];
      && q == Method1Quality(Mains(RowBlocks(row)[i]))
      && 0.0 <= q < 1.0
      && (q == 0.0 <==> GroupCount(RowBlocks(row)[i]) == 1)
  {
    var kept := RowBlocks(row);
    ListsAt(kept, i);
    Method1Bounds(Mains(kept[i]));
  }

  /**
   * Each method 2 entry is `N + 1 - 1/n` of its block with `1 <= N <= n <= p`,
   * so it lies in [N, N + 1) and equals N exactly when n is 1.
   */
  lemma RowMethod2(row: Row, i: nat)
    requires i < |RowBlocks(row)|
    ensures var r := RowSpec(row);
      var nSub := r.method2SubclassCount[i];
      var nGroup := r.method2GroupCount[i];
      var q := r.method2Quality[i];
      && 1 <= nSub <= nGroup <= |RowBlocks(row)[i]|
      && q == nSub as real + 1.0 - 1.0 / nGroup as real
      && nSub as real <= q < nSub as real + 1.0
      && (q == nSub as real <==> nGroup == 1)
  {
    var kept := RowBlocks(row);
    ListsAt(kept, i);
    Method2Bounds(kept[i]);
  }

  /** The main groups of all kept blocks are exactly those of their codes. */
  lemma {:induction false} AllMainsMembers(kept: seq<seq<Code>>, x: string)
    ensures x in AllMains(kept) <==>
      exists i, j :: 0 <= i < |kept| && 0 <= j < |kept[i]| && kept[i][j].mainGroup == x
    decreases |kept|
  {
    if kept != [] {
      var init := kept[..|kept| - 1];
      var last := kept[|kept| - 1];
      AllMainsMembers(init, x);
      assert AllMains(kept) == AllMains(init) + Mains(last);
      if x in Mains(last) {
        var j :| 0 <= j < |last| && Mains(last)[j] == x;
        assert kept[|kept| - 1][j].mainGroup == x;
      }
      if exists i, j :: 0 <= i < |kept| && 0 <= j < |kept[i]| && kept[i][j].mainGroup == x {
        var i, j :| 0 <= i < |kept| && 0 <= j < |kept[i]| && kept[i][j].mainGroup == x;
        if i < |init| {
          assert init[i][j].mainGroup == x;
        } else {
          assert Mains(last)[j] == x;
        }
      }
    }
  }

  /** How often `x` is the main group of a code, summed over the kept blocks. */
  function Occurrences(kept: seq<seq<Code>>, x: string): nat
    decreases |kept|
  {
    if kept == [] then 0
    else Occurrences(kept[..|kept| - 1], x) + multiset(Mains(kept[|kept| - 1]))[x]
  }

  /** Collecting the main groups block by block counts each one over all blocks, and keeps every code. */
  lemma {:induction false} AllMainsCounts(kept: seq<seq<Code>>, x: string)
    ensures multiset(AllMains(kept))[x] == Occurrences(kept, x)
    ensures |AllMains(kept)| == TotalCodes(kept)
    decreases |kept|
  {
    if kept != [] {
      var init := kept[..|kept| - 1];
      AllMainsCounts(init, x);
      assert AllMains(kept) == AllMains(init) + Mains(kept[|kept| - 1]);
    }
  }

  /**
   * The method 3 map has as keys exactly the main groups parsed from kept
   * blocks, each mapped to its number of occurrences over all kept blocks;
   * taken over its keys (each listed once), the counts add up to the number
   * of parsed codes in the row.
   */
  lemma RowMethod3(row: Row)
    ensures var kept := RowBlocks(row);
      var m := RowSpec(row).method3Counts;
      var all := AllMains(kept);
      && (forall x :: x in m <==>
            exists i, j :: 0 <= i < |kept| && 0 <= j < |kept[i]| && kept[i][j].mainGroup == x)
      && (forall x :: x in m ==> m[x] == Occurrences(kept, x))
      && NoDuplicates(Distinct(all)) && (forall x :: x in Distinct(all) <==> x in m)
      && SumCounts(Distinct(all), multiset(all)) == TotalCodes(kept)
  {
    var kept := RowBlocks(row);
    var all := AllMains(kept);
    forall x ensures (x in all <==>
        exists i, j :: 0 <= i < |kept| && 0 <= j < |kept[i]| && kept[i][j].mainGroup == x)
      && multiset(all)[x] == Occurrences(kept, x)
    {
      AllMainsMembers(kept, x);
      AllMainsCounts(kept, x);
    }
    AllMainsCounts(kept, "");
    CountsAddUp(all);
  }
}
