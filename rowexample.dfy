/**
 * A worked row: the text "{G06Q11/10;G06Q11/11;G06Q13/10}{G06Q10/10;G06Q12/10}"
 * holds two patents, the first with main groups G06Q11, G06Q11, G06Q13 and
 * the second with G06Q10, G06Q12, so method 1 gives 4/9 and 1/2.
 *
 * `ExampleRowMethod1` states this for any row whose text is that literal.
 * Inside, the literal is first spelled out as the enclosed joins of its
 * tokens (`ExampleRowText`), and the result is then derived from those
 * pieces (`ExampleRowFromPieces`) through the general lemmas
 * (`ParsedSlashTokens`, `FindAllEnclose`, `SplitJoin`) rather than by
 * unfolding every character.
 */
module RowExample {
  import opened Wrappers
  import opened Text
  import opened Patterns
  import opened ClassCode
  import opened Counting
  import opened Diversity
  import opened RowProcessing

  /** A token `group/suffix` with nothing around it that would change how it is read. */
  predicate PlainSlashToken(group: string, suffix: string) {
    && group != [] && !IsSpace(group[0]) && !IsSpace(group[|group| - 1])
    && (suffix != [] ==> !IsSpace(suffix[|suffix| - 1]))
    && '/' !in group && '(' !in group && '(' !in suffix
  }

  /** One token `group/suffix` is already stripped and parses to `group`. */
  lemma SlashTokenParsed(group: string, suffix: string)
    requires PlainSlashToken(group, suffix)
    ensures var t := group + "/" + suffix;
      && t != [] && Strip(t) == t
      && ExtractPatentParts(t) == Some(Code(group, SubClassOf(group)))
  {
    var t := group + "/" + suffix;
    assert t[0] == group[0];
    assert t[|t| - 1] == if suffix == [] then '/' else suffix[|suffix| - 1];
    StripUnchanged(t);
    SlashToken(group, suffix);
  }

  /** The tokens `groups[k]/suffixes[k]`, in order. */
  function SlashTokens(groups: seq<string>, suffixes: seq<string>): (r: seq<string>)
    requires |groups| == |suffixes|
    ensures |r| == |groups|
    decreases |groups|
  {
    if groups == [] then []
    else
      var n := |groups| - 1;
      SlashTokens(groups[..n], suffixes[..n]) + [groups[n] + "/" + suffixes[n]]
  }

  /** A character other than '/' that is in no group and no suffix is in no token. */
  lemma {:induction false} NotInSlashTokens(groups: seq<string>, suffixes: seq<string>, x: char)
    requires |groups| == |suffixes| && x != '/'
    requires forall k :: 0 <= k < |groups| ==> x !in groups[k] && x !in suffixes[k]
    ensures forall k :: 0 <= k < |groups| ==> x !in SlashTokens(groups, suffixes)[k]
    decreases |groups|
  {
    if groups != [] {
      var n := |groups| - 1;
      NotInSlashTokens(groups[..n], suffixes[..n], x);
      assert x !in groups[n] + "/" + suffixes[n];
    }
  }

  /** A last token that is already stripped and parses adds its code at the end. */
  lemma ParsedSnoc(tokens: seq<string>, code: Code)
    requires tokens != []
    requires var t := tokens[|tokens| - 1]; t != [] && Strip(t) == t && ExtractPatentParts(t) == Some(code)
    ensures ParsedCodes(tokens) == ParsedCodes(tokens[..|tokens| - 1]) + [code]
  {
  }

  /** Appending a code appends its main group. */
  lemma MainsSnoc(codes: seq<Code>, c: Code)
    ensures Mains(codes + [c]) == Mains(codes) + [c.mainGroup]
  {
  }

  /** Tokens `group/suffix` parse, in order, to exactly their groups. */
  lemma {:induction false} ParsedSlashTokens(groups: seq<string>, suffixes: seq<string>)
    requires |groups| == |suffixes|
    requires forall k :: 0 <= k < |groups| ==> PlainSlashToken(groups[k], suffixes[k])
    ensures Mains(ParsedCodes(SlashTokens(groups, suffixes))) == groups
    decreases |groups|
  {
    if groups != [] {
      var n := |groups| - 1;
      assert groups == groups[..n] + [groups[n]];
      var tokens := SlashTokens(groups, suffixes);
      ParsedSlashTokens(groups[..n], suffixes[..n]);
      SlashTokenParsed(groups[n], suffixes[n]);
      assert tokens[..n] == SlashTokens(groups[..n], suffixes[..n]);
      var code := Code(groups[n], SubClassOf(groups[n]));
      ParsedSnoc(tokens, code);
      MainsSnoc(ParsedCodes(tokens[..n]), code);
    }
  }

  /** A character in none of the parts and different from the separator is not in their join. */
  lemma {:induction false} NotInJoin(parts: seq<string>, d: char, x: char)
    requires x != d
    requires forall k :: 0 <= k < |parts| ==> x !in parts[k]
    ensures x !in Join(parts, d)
    decreases |parts|
  {
    if |parts| > 1 {
      NotInJoin(parts[1..], d, x);
      assert x !in parts[0];
    }
  }

  /** The keys of `Counter([a, a, b])`, in order. */
  lemma DistinctRepeatedPair(a: string, b: string)
    requires a != b
    ensures Distinct([a, a, b]) == [a, b]
  {
    var xs := [a, a, b];
    assert xs[..2] == [a, a] && [a, a][..1] == [a] && [a][..0] == [];
    assert Distinct([a]) == [a];
    assert Distinct([a, a]) == [a];
  }

  /** The keys of `Counter([a, b])`, in order. */
  lemma DistinctPair(a: string, b: string)
    requires a != b
    ensures Distinct([a, b]) == [a, b]
  {
    assert [a, b][..1] == [a] && [a][..0] == [];
    assert Distinct([a]) == [a];
  }

  /** The squared shares of `a` (twice) and `b` (once) among three: `(2/3)^2 + (1/3)^2`. */
  lemma RepeatedPairShares(a: string, b: string)
    requires a != b
    ensures SumSquaredShares([a, b], multiset([a, a, b]), 3) == 5.0 / 9.0
  {
    var m := multiset([a, a, b]);
    assert m[a] == 2 && m[b] == 1;
    assert [a, b][..1] == [a];
    assert SumSquaredShares([a], m, 3) == (2.0 / 3.0) * (2.0 / 3.0);
  }

  /** The squared shares of `a` and `b`, once each among two: `(1/2)^2 + (1/2)^2`. */
  lemma DistinctPairShares(a: string, b: string)
    requires a != b
    ensures SumSquaredShares([a, b], multiset([a, b]), 2) == 1.0 / 2.0
  {
    var m := multiset([a, b]);
    assert m[a] == 1 && m[b] == 1;
    assert [a, b][..1] == [a];
    assert SumSquaredShares([a], m, 2) == (1.0 / 2.0) * (1.0 / 2.0);
  }

  /** Method 1 of a block whose main groups are `a, a, b`: `1 - (2/3)^2 - (1/3)^2`. */
  lemma RepeatedPairQuality(a: string, b: string)
    requires a != b
    ensures Method1Quality([a, a, b]) == 4.0 / 9.0
  {
    DistinctRepeatedPair(a, b);
    RepeatedPairShares(a, b);
  }

  /** Method 1 of a block whose main groups are `a, b`: `1 - (1/2)^2 - (1/2)^2`. */
  lemma DistinctPairQuality(a: string, b: string)
    requires a != b
    ensures Method1Quality([a, b]) == 1.0 / 2.0
  {
    DistinctPair(a, b);
    DistinctPairShares(a, b);
  }

  /** The pieces of the example row are plain codes free of the separators. */
  lemma ExampleRowPieces(g11: string, g13: string, g10: string, g12: string, s10: string, s11: string)
    requires g11 == "G06Q11" && g13 == "G06Q13" && g10 == "G06Q10" && g12 == "G06Q12"
    requires s10 == "10" && s11 == "11"
    ensures PlainSlashToken(g11, s10) && PlainSlashToken(g11, s11) && PlainSlashToken(g13, s10)
    ensures PlainSlashToken(g10, s10) && PlainSlashToken(g12, s10)
    ensures g11 != g13 && g10 != g12
    ensures forall c :: c in g11 || c in g13 || c in g10 || c in g12 || c in s10 || c in s11 ==>
              c != ';' && c != '}' && c != '\n'
  {
    assert g11[5] != g13[5] && g10[5] != g12[5];
  }

  /** Pieces of tokens `groups[k]/suffixes[k]` that can be joined into one block's content. */
  predicate BlockPieces(groups: seq<string>, suffixes: seq<string>) {
    && |groups| == |suffixes| >= 1
    && (forall k :: 0 <= k < |groups| ==> PlainSlashToken(groups[k], suffixes[k]))
    && (forall k :: 0 <= k < |groups| ==> ';' !in groups[k] + suffixes[k])
    && (forall k :: 0 <= k < |groups| ==> '}' !in groups[k] + suffixes[k] && '\n' !in groups[k] + suffixes[k])
  }

  /** The content of one block: its tokens joined by ';' yield codes with exactly `groups` as main groups. */
  lemma PlainBlock(groups: seq<string>, suffixes: seq<string>)
    requires BlockPieces(groups, suffixes)
    ensures var b := Join(SlashTokens(groups, suffixes), ';');
      && Mains(BlockCodes(b)) == groups
      && '}' !in b && '\n' !in b
  {
    var t := SlashTokens(groups, suffixes);
    NotInSlashTokens(groups, suffixes, ';');
    NotInSlashTokens(groups, suffixes, '}');
    NotInSlashTokens(groups, suffixes, '\n');
    SplitJoin(t, ';');
    ParsedSlashTokens(groups, suffixes);
    NotInJoin(t, ';', '}');
    NotInJoin(t, ';', '\n');
  }

  /** Two blocks that both yield codes are both kept, in order. */
  lemma KeptTwo(b1: string, b2: string)
    requires BlockCodes(b1) != [] && BlockCodes(b2) != []
    ensures Kept([b1, b2]) == [BlockCodes(b1), BlockCodes(b2)]
  {
    var blocks := [b1, b2];
    assert blocks[..2] == blocks && blocks[..0] == [];
    KeptAppend(blocks, 0);
    KeptAppend(blocks, 1);
  }

  /** The kept blocks of a row whose text is enclosed contents are those of the contents. */
  lemma EnclosedRowBlocks(row: Row, contents: seq<string>)
    requires forall k :: 0 <= k < |contents| ==> '}' !in contents[k] && '\n' !in contents[k]
    requires RowText(row, Categories) == Enclose(contents, '{', '}')
    ensures RowBlocks(row) == Kept(contents)
  {
    FindAllEnclose(contents, '{', '}');
  }

  /** Method 1 of two kept blocks, in order. */
  lemma TwoMethod1s(c1: seq<Code>, c2: seq<Code>)
    requires c1 != [] && c2 != []
    ensures NonEmptyBlocks([c1, c2])
    ensures Method1s([c1, c2]) == [Method1Quality(Mains(c1)), Method1Quality(Mains(c2))]
  {
    assert [c1, c2][..1] == [c1] && [c1][..0] == [];
  }

  /** Two blocks of plain tokens get the method 1 values of their main groups, in order. */
  lemma TwoBlocksMethod1(groups1: seq<string>, suffixes1: seq<string>, groups2: seq<string>, suffixes2: seq<string>)
    requires BlockPieces(groups1, suffixes1) && BlockPieces(groups2, suffixes2)
    ensures var contents := [Join(SlashTokens(groups1, suffixes1), ';'), Join(SlashTokens(groups2, suffixes2), ';')];
      Metrics(Kept(contents)).method1Quality == [Method1Quality(groups1), Method1Quality(groups2)]
  {
    var b1 := Join(SlashTokens(groups1, suffixes1), ';');
    var b2 := Join(SlashTokens(groups2, suffixes2), ';');
    PlainBlock(groups1, suffixes1);
    PlainBlock(groups2, suffixes2);
    var c1 := BlockCodes(b1);
    var c2 := BlockCodes(b2);
    assert |c1| == |groups1| && |c2| == |groups2|;
    KeptTwo(b1, b2);
    TwoMethod1s(c1, c2);
  }

  /** The contents of two blocks of plain tokens hold neither '}' nor '\n'. */
  lemma TwoPlainContents(groups1: seq<string>, suffixes1: seq<string>, groups2: seq<string>, suffixes2: seq<string>)
    requires BlockPieces(groups1, suffixes1) && BlockPieces(groups2, suffixes2)
    ensures var contents := [Join(SlashTokens(groups1, suffixes1), ';'), Join(SlashTokens(groups2, suffixes2), ';')];
      forall k :: 0 <= k < |contents| ==> '}' !in contents[k] && '\n' !in contents[k]
  {
    var contents := [Join(SlashTokens(groups1, suffixes1), ';'), Join(SlashTokens(groups2, suffixes2), ';')];
    PlainBlock(groups1, suffixes1);
    PlainBlock(groups2, suffixes2);
    forall k | 0 <= k < |contents|
      ensures '}' !in contents[k] && '\n' !in contents[k]
    {
      if k == 0 {} else {}
    }
  }

  /** A row whose text is two blocks of plain tokens gets the method 1 values of their main groups, in order. */
  lemma TwoBlocksRow(row: Row, groups1: seq<string>, suffixes1: seq<string>, groups2: seq<string>, suffixes2: seq<string>)
    requires BlockPieces(groups1, suffixes1) && BlockPieces(groups2, suffixes2)
    requires RowText(row, Categories)
          == Enclose([Join(SlashTokens(groups1, suffixes1), ';'), Join(SlashTokens(groups2, suffixes2), ';')], '{', '}')
    ensures RowSpec(row).method1Quality == [Method1Quality(groups1), Method1Quality(groups2)]
  {
    TwoPlainContents(groups1, suffixes1, groups2, suffixes2);
    EnclosedRowBlocks(row, [Join(SlashTokens(groups1, suffixes1), ';'), Join(SlashTokens(groups2, suffixes2), ';')]);
    TwoBlocksMethod1(groups1, suffixes1, groups2, suffixes2);
  }

  /** Two tokens `group/suffix`, spelled out. */
  lemma SlashTokensTwo(a: string, b: string, sa: string, sb: string)
    ensures SlashTokens([a, b], [sa, sb]) == [a + "/" + sa, b + "/" + sb]
  {
    assert [a, b][..1] == [a] && [sa, sb][..1] == [sa];
    assert [a][..0] == [] && [sa][..0] == [];
  }

  /** Three tokens `group/suffix`, spelled out. */
  lemma SlashTokensThree(a: string, b: string, c: string, sa: string, sb: string, sc: string)
    ensures SlashTokens([a, b, c], [sa, sb, sc]) == [a + "/" + sa, b + "/" + sb, c + "/" + sc]
  {
    assert [a, b, c][..2] == [a, b] && [sa, sb, sc][..2] == [sa, sb];
    SlashTokensTwo(a, b, sa, sb);
  }

  /** Two pieces joined by `d`, spelled out. */
  lemma JoinTwo(x: string, y: string, d: char)
    ensures Join([x, y], d) == x + [d] + y
  {
    assert [x, y][1..] == [y];
  }

  /** Three pieces joined by `d`, spelled out. */
  lemma JoinThree(x: string, y: string, z: string, d: char)
    ensures Join([x, y, z], d) == x + [d] + y + [d] + z
  {
    assert [x, y, z][1..] == [y, z];
    JoinTwo(y, z, d);
    assert x + [d] + (y + [d] + z) == x + [d] + y + [d] + z;
  }

  /** Two contents, each between its delimiters, spelled out. */
  lemma EncloseTwo(x: string, y: string, o: char, c: char)
    ensures Enclose([x, y], o, c) == [o] + x + [c] + [o] + y + [c]
  {
    assert [x, y][1..] == [y] && [y][1..] == [];
    assert Enclose([y], o, c) == [o] + y + [c] + [];
    assert [o] + y + [c] + [] == [o] + y + [c];
    assert [o] + x + [c] + ([o] + y + [c]) == [o] + x + [c] + [o] + y + [c];
  }

  // The example row's text, spelled character by character in small steps.

  lemma SpellTokens()
    ensures "G06Q11" + "/" + "10" == "G06Q11/10" && "G06Q11" + "/" + "11" == "G06Q11/11"
    ensures "G06Q13" + "/" + "10" == "G06Q13/10" && "G06Q10" + "/" + "10" == "G06Q10/10"
    ensures "G06Q12" + "/" + "10" == "G06Q12/10"
  {
  }

  lemma SpellBlocks()
    ensures "G06Q11/10" + [';'] + "G06Q11/11" + [';'] + "G06Q13/10" == "G06Q11/10;G06Q11/11;G06Q13/10"
    ensures "G06Q10/10" + [';'] + "G06Q12/10" == "G06Q10/10;G06Q12/10"
  {
  }

  lemma SpellFirstEnclosed()
    ensures ['{'] + "G06Q11/10;G06Q11/11;G06Q13/10" + ['}'] == "{G06Q11/10;G06Q11/11;G06Q13/10}"
  {
  }

  lemma SpellSecondEnclosed()
    ensures ['{'] + "G06Q10/10;G06Q12/10" + ['}'] == "{G06Q10/10;G06Q12/10}"
  {
  }

  lemma SpellRow()
    ensures "{G06Q11/10;G06Q11/11;G06Q13/10}" + "{G06Q10/10;G06Q12/10}"
         == "{G06Q11/10;G06Q11/11;G06Q13/10}{G06Q10/10;G06Q12/10}"
  {
  }

  /** The row text built from the pieces is the literal text of the example row. */
  lemma ExampleRowText(g11: string, g13: string, g10: string, g12: string, s10: string, s11: string)
    requires g11 == "G06Q11" && g13 == "G06Q13" && g10 == "G06Q10" && g12 == "G06Q12"
    requires s10 == "10" && s11 == "11"
    ensures Enclose([Join(SlashTokens([g11, g11, g13], [s10, s11, s10]), ';'),
                     Join(SlashTokens([g10, g12], [s10, s10]), ';')], '{', '}')
         == "{G06Q11/10;G06Q11/11;G06Q13/10}{G06Q10/10;G06Q12/10}"
  {
    SpellTokens();
    SlashTokensThree(g11, g11, g13, s10, s11, s10);
    assert SlashTokens([g11, g11, g13], [s10, s11, s10]) == ["G06Q11/10", "G06Q11/11", "G06Q13/10"];
    SlashTokensTwo(g10, g12, s10, s10);
    assert SlashTokens([g10, g12], [s10, s10]) == ["G06Q10/10", "G06Q12/10"];
    SpellBlocks();
    JoinThree("G06Q11/10", "G06Q11/11", "G06Q13/10", ';');
    JoinTwo("G06Q10/10", "G06Q12/10", ';');
    EncloseTwo("G06Q11/10;G06Q11/11;G06Q13/10", "G06Q10/10;G06Q12/10", '{', '}');
    SpellFirstEnclosed();
    SpellSecondEnclosed();
    SpellRow();
  }

  /** The example row, with its text given as the enclosed joins of its pieces. */
  lemma ExampleRowFromPieces(row: Row, g11: string, g13: string, g10: string, g12: string, s10: string, s11: string)
    requires g11 == "G06Q11" && g13 == "G06Q13" && g10 == "G06Q10" && g12 == "G06Q12"
    requires s10 == "10" && s11 == "11"
    requires RowText(row, Categories)
          == Enclose([Join(SlashTokens([g11, g11, g13], [s10, s11, s10]), ';'),
                      Join(SlashTokens([g10, g12], [s10, s10]), ';')], '{', '}')
    ensures RowSpec(row).method1Quality == [4.0 / 9.0, 1.0 / 2.0]
  {
    ExampleRowPieces(g11, g13, g10, g12, s10, s11);
    assert BlockPieces([g11, g11, g13], [s10, s11, s10]);
    assert BlockPieces([g10, g12], [s10, s10]);
    TwoBlocksRow(row, [g11, g11, g13], [s10, s11, s10], [g10, g12], [s10, s10]);
    RepeatedPairQuality(g11, g13);
    DistinctPairQuality(g10, g12);
  }

  /**
   * A row whose cells concatenate to
   * "{G06Q11/10;G06Q11/11;G06Q13/10}{G06Q10/10;G06Q12/10}" gets method 1
   * values 4/9 and 1/2, in that order.
   */
  lemma ExampleRowMethod1(row: Row)
    requires RowText(row, Categories) == "{G06Q11/10;G06Q11/11;G06Q13/10}{G06Q10/10;G06Q12/10}"
    ensures RowSpec(row).method1Quality == [4.0 / 9.0, 1.0 / 2.0]
  {
    ExampleRowText("G06Q11", "G06Q13", "G06Q10", "G06Q12", "10", "11");
    ExampleRowFromPieces(row, "G06Q11", "G06Q13", "G06Q10", "G06Q12", "10", "11");
  }
}
