/**
 * Parsing one classification token (such as "G06Q40/00(2012.01)I") into its
 * main group ("G06Q40") and subclass ("G06Q"), following a fixed order of cases.
 */
module ClassCode {
  import opened Wrappers
  import opened Text
  import opened Patterns

  /** Neither the first nor the last character is whitespace, as after `strip()`. */
  predicate NoOuterSpace(s: string) {
    s != [] ==> !IsSpace(s[0]) && !IsSpace(s[|s| - 1])
  }

  /** A parsed classification code: the main group and its subclass. */
  datatype Code = Code(mainGroup: string, subClass: string)

  /** The characters that end a main group taken from inside parentheses. */
  const GroupStops: set<char> := {',', ';', ':', '('}

  function Min(a: nat, b: nat): nat { if a <= b then a else b }

  /** `main_group[:4]`: the subclass is the first four characters of the main group. */
  function SubClassOf(mainGroup: string): (r: string)
    ensures |r| == Min(4, |mainGroup|) && r <= mainGroup
  {
    mainGroup[..Min(4, |mainGroup|)]
  }

  /**
   * `re.search(r'\((.*?)\)', s)`: the content of the first parenthesised
   * group; there is none without a '(' or without a ')' after it.
   */
  function ParenGroup(s: string): (r: Option<string>)
    ensures r.Some? ==> ')' !in r.value && '\n' !in r.value && forall c :: c in r.value ==> c in s
    ensures '(' !in s || ')' !in s ==> r == None
  {
    assert ')' !in s ==> FirstGroup(s, '(', ')') == None by {
      if ')' !in s { NoCloseNoGroup(s, '(', ')'); }
    }
    FirstGroup(s, '(', ')')
  }

  /**
   * No group when the first '(' has no ')' after it, even with a ')' before
   * it: such a token falls through to the cases without parentheses.
   */
  lemma UnclosedParenthesis(pre: string, rest: string)
    requires '(' !in pre && ')' !in rest
    ensures ParenGroup(pre + "(" + rest) == None
  {
    FirstGroupUnclosed(pre, rest, '(', ')');
  }

  /** "A)B(C/D" has a ')' only before its '(', so it has no group. */
  lemma ExampleUnclosedParenthesis()
    ensures ParenGroup("A)B(C/D") == None
  {
    UnclosedParenthesis("A)B", "C/D");
    assert "A)B" + "(" + "C/D" == "A)B(C/D";
  }

  /**
   * The main group of a stripped token, by the first case that applies:
   * a slash inside the first parenthesised group, else a slash anywhere,
   * else no slash at all. Whatever the case, the result holds no '/' and
   * no '(', has no whitespace at either end, and is made of characters of
   * the token.
   */
  function MainGroupOf(s: string): (mg: string)
    ensures '/' !in mg && '(' !in mg
    ensures NoOuterSpace(mg)
    ensures forall c :: c in mg ==> c in s
  {
    var m := ParenGroup(s);
    if m.Some? && '/' in m.value then
      BeforeSlash(m.value);
      CleanPiece(PrefixBefore(m.value, {'/'}), GroupStops);
      Strip(PrefixBefore(PrefixBefore(m.value, {'/'}), GroupStops))
    else if '/' in s then
      BeforeSlash(s);
      CleanPiece(PrefixBefore(s, {'/'}), {'('});
      Strip(PrefixBefore(PrefixBefore(s, {'/'}), {'('}))
    else
      CleanPiece(s, {'('});
      Strip(PrefixBefore(s, {'('}))
  }

  /**
   * `extract_patent_parts`: `None` stands for the pair `(None, None)`, the
   * answer for a token that is empty after stripping or whose main group is
   * empty; any code it returns is well formed.
   */
  function ExtractPatentParts(token: string): (r: Option<Code>)
    ensures Strip(token) == [] ==> r == None
    ensures r.Some? ==> WellFormed(r.value)
  {
    var s := Strip(token);
    if s == [] then None
    else
      var mainGroup := MainGroupOf(s);
      if mainGroup == [] then None else Some(Code(mainGroup, SubClassOf(mainGroup)))
  }

  /** The shape every successfully parsed code has. */
  predicate WellFormed(c: Code) {
    && c.mainGroup != []
    && c.subClass == SubClassOf(c.mainGroup)
  }

  /** A piece stripped after cutting at the first stop has no stop and no surrounding whitespace. */
  lemma CleanPiece(a: string, stops: set<char>)
    ensures forall c :: c in Strip(PrefixBefore(a, stops)) ==> c in a && c !in stops
    ensures NoOuterSpace(Strip(PrefixBefore(a, stops)))
  {
    var p := PrefixBefore(a, stops);
    StripContents(p);
    assert forall c :: c in p ==> c in a;
  }

  /** The text before the first '/' of `t` holds only characters of `t` other than '/'. */
  lemma BeforeSlash(t: string)
    ensures forall c :: c in PrefixBefore(t, {'/'}) ==> c in t && c != '/'
  {
  }

  /**
   * An empty or all-whitespace token yields nothing; on success the main group
   * is non-empty, free of '/' and '(' and of surrounding whitespace, and the
   * subclass is its prefix of length min(4, |main group|).
   */
  lemma ExtractedShape(token: string)
    ensures Strip(token) == [] ==> ExtractPatentParts(token) == None
    ensures match ExtractPatentParts(token)
      case None => true
      case Some(c) =>
        && c.mainGroup != []
        && '/' !in c.mainGroup && '(' !in c.mainGroup
        && !IsSpace(c.mainGroup[0]) && !IsSpace(c.mainGroup[|c.mainGroup| - 1])
        && |c.subClass| == Min(4, |c.mainGroup|) && c.subClass <= c.mainGroup
        && WellFormed(c)
  {
    StripContents(token);
  }

  /** The token is stripped first, so stripping it beforehand changes nothing. */
  lemma ExtractAfterStrip(token: string)
    ensures ExtractPatentParts(Strip(token)) == ExtractPatentParts(token)
  {
    StripIdempotent(token);
  }

  /**
   * Case order: when the first parenthesised group holds a '/', the main group
   * comes from inside it, whatever slashes stand before or after the group.
   */
  lemma SlashInParenthesesWins(pre: string, inner: string, post: string)
    requires '(' !in pre
    requires ')' !in inner && '\n' !in inner && '/' in inner
    ensures MainGroupOf(pre + "(" + inner + ")" + post)
         == Strip(PrefixBefore(PrefixBefore(inner, {'/'}), GroupStops))
  {
    FirstGroupAt(pre, inner, post, '(', ')');
  }

  /**
   * When the first parenthesised group holds no '/', a slash anywhere in the
   * token decides: the main group is the text before it, cut at the first '('.
   */
  lemma SlashOutsideParentheses(pre: string, inner: string, post: string)
    requires '(' !in pre
    requires ')' !in inner && '\n' !in inner && '/' !in inner
    requires '/' in pre + post
    ensures MainGroupOf(pre + "(" + inner + ")" + post)
         == Strip(PrefixBefore(PrefixBefore(pre + "(" + inner + ")" + post, {'/'}), {'('}))
  {
    FirstGroupAt(pre, inner, post, '(', ')');
    var s := pre + "(" + inner + ")" + post;
    assert forall c :: c in pre + post ==> c in s;
  }

  /**
   * A token `<main>/<suffix>` without parentheses yields `<main>` and its
   * first four characters.
   */
  lemma SlashToken(mainGroup: string, suffix: string)
    requires mainGroup != [] && !IsSpace(mainGroup[0]) && !IsSpace(mainGroup[|mainGroup| - 1])
    requires suffix != [] ==> !IsSpace(suffix[|suffix| - 1])
    requires '/' !in mainGroup && '(' !in mainGroup && '(' !in suffix
    ensures ExtractPatentParts(mainGroup + "/" + suffix)
         == Some(Code(mainGroup, SubClassOf(mainGroup)))
  {
    var token := mainGroup + "/" + suffix;
    assert token[0] == mainGroup[0];
    assert token[|token| - 1] == if suffix == [] then '/' else suffix[|suffix| - 1];
    StripUnchanged(token);
    assert '(' !in token by {
      assert forall c :: c in token ==> c in mainGroup || c == '/' || c in suffix;
    }
    assert ParenGroup(token) == None;
    assert token[|mainGroup|] == '/';
    assert token == mainGroup + ("/" + suffix);
    PrefixBeforeAt(mainGroup, "/" + suffix, {'/'});
    PrefixBeforeAt(mainGroup, [], {'('});
    assert mainGroup + [] == mainGroup;
    StripUnchanged(mainGroup);
    assert MainGroupOf(token) == mainGroup;
  }

  /** A token without '/' yields the text before its first '('. */
  lemma NoSlashToken(mainGroup: string, rest: string)
    requires mainGroup != [] && !IsSpace(mainGroup[0]) && !IsSpace(mainGroup[|mainGroup| - 1])
    requires '/' !in mainGroup && '(' !in mainGroup && '/' !in rest
    requires rest != [] ==> rest[0] == '(' && !IsSpace(rest[|rest| - 1])
    ensures ExtractPatentParts(mainGroup + rest) == Some(Code(mainGroup, SubClassOf(mainGroup)))
  {
    var token := mainGroup + rest;
    assert token[0] == mainGroup[0];
    assert token[|token| - 1] == if rest == [] then mainGroup[|mainGroup| - 1] else rest[|rest| - 1];
    StripUnchanged(token);
    assert '/' !in token by {
      assert forall c :: c in token ==> c in mainGroup || c in rest;
    }
    var m := ParenGroup(token);
    assert m.Some? ==> '/' !in m.value;
    PrefixBeforeAt(mainGroup, rest, {'('});
    StripUnchanged(mainGroup);
    assert MainGroupOf(token) == mainGroup;
  }

  /**
   * A token `<pre>(<main>/<rest>)<post>` whose group starts with a clean main
   * group yields that main group, whatever `<pre>` and `<post>` hold.
   */
  lemma SlashInParenthesesToken(pre: string, mainGroup: string, rest: string, post: string)
    requires pre != [] ==> !IsSpace(pre[0])
    requires post != [] ==> !IsSpace(post[|post| - 1])
    requires '(' !in pre
    requires mainGroup != [] && !IsSpace(mainGroup[0]) && !IsSpace(mainGroup[|mainGroup| - 1])
    requires forall c :: c in mainGroup ==> c != '/' && c !in GroupStops
    requires rest != [] && rest[0] == '/'
    requires ')' !in mainGroup + rest && '\n' !in mainGroup + rest
    ensures ExtractPatentParts(pre + "(" + mainGroup + rest + ")" + post)
         == Some(Code(mainGroup, SubClassOf(mainGroup)))
  {
    var inner := mainGroup + rest;
    var token := pre + "(" + mainGroup + rest + ")" + post;
    assert token == pre + "(" + inner + ")" + post;
    assert token[0] == if pre == [] then '(' else pre[0];
    assert token[|token| - 1] == if post == [] then ')' else post[|post| - 1];
    StripUnchanged(token);
    assert inner[|mainGroup|] == '/';
    SlashInParenthesesWins(pre, inner, post);
    PrefixBeforeAt(mainGroup, rest, {'/'});
    PrefixBeforeAt(mainGroup, [], GroupStops);
    assert mainGroup + [] == mainGroup;
    StripUnchanged(mainGroup);
    assert MainGroupOf(token) == mainGroup;
  }

  /**
   * When the first group (if any) holds no slash and the token starts with a
   * clean main group followed by '/', that main group is the result.
   */
  lemma SlashCase(s: string, mainGroup: string)
    requires ParenGroup(s).Some? ==> '/' !in ParenGroup(s).value
    requires mainGroup != [] && !IsSpace(mainGroup[0]) && !IsSpace(mainGroup[|mainGroup| - 1])
    requires '/' !in mainGroup && '(' !in mainGroup
    requires |s| > |mainGroup| && s[..|mainGroup|] == mainGroup && s[|mainGroup|] == '/'
    ensures MainGroupOf(s) == mainGroup
  {
    var rest := s[|mainGroup|..];
    assert s == mainGroup + rest;
    PrefixBeforeAt(mainGroup, rest, {'/'});
    PrefixBeforeAt(mainGroup, [], {'('});
    assert mainGroup + [] == mainGroup;
    StripUnchanged(mainGroup);
  }

  /** The first group of `<main>/<suffix>(<group>)<tail>` is `<group>`. */
  lemma GroupAfterSlash(mainGroup: string, suffix: string, group: string, tail: string)
    requires '(' !in mainGroup && '(' !in suffix
    requires ')' !in group && '\n' !in group
    ensures ParenGroup(mainGroup + "/" + suffix + "(" + group + ")" + tail) == Some(group)
  {
    var pre := mainGroup + "/" + suffix;
    assert '(' !in pre by {
      assert forall c :: c in pre ==> c in mainGroup || c == '/' || c in suffix;
    }
    FirstGroupAt(pre, group, tail, '(', ')');
  }

  /**
   * A token `<main>/<suffix>(<group>)<tail>` whose group holds no slash yields
   * the text before the slash.
   */
  lemma SlashBeforeParenthesesToken(mainGroup: string, suffix: string, group: string, tail: string)
    requires mainGroup != [] && !IsSpace(mainGroup[0]) && !IsSpace(mainGroup[|mainGroup| - 1])
    requires '/' !in mainGroup && '(' !in mainGroup && '(' !in suffix
    requires ')' !in group && '\n' !in group && '/' !in group
    requires tail != [] ==> !IsSpace(tail[|tail| - 1])
    ensures ExtractPatentParts(mainGroup + "/" + suffix + "(" + group + ")" + tail)
         == Some(Code(mainGroup, SubClassOf(mainGroup)))
  {
    var token := mainGroup + "/" + suffix + "(" + group + ")" + tail;
    assert token[0] == mainGroup[0];
    assert token[|token| - 1] == if tail == [] then ')' else tail[|tail| - 1];
    StripUnchanged(token);
    GroupAfterSlash(mainGroup, suffix, group, tail);
    assert token[..|mainGroup|] == mainGroup && token[|mainGroup|] == '/';
    SlashCase(token, mainGroup);
  }

  // The examples of the function's documentation. Each example is proved in
  // two steps: the case lemmas above are applied to the token's pieces (so
  // the parser is never evaluated character by character), and a one-line
  // lemma spells the concatenated pieces as the literal token.

  /** The pieces of "//(A61K31/546,31:43)" meet the requirements of `SlashInParenthesesToken`. */
  lemma SlashInsideParenthesesPieces(pre: string, mainGroup: string, rest: string)
    requires pre == "//" && mainGroup == "A61K31" && rest == "/546,31:43"
    ensures pre != [] ==> !IsSpace(pre[0])
    ensures '(' !in pre
    ensures mainGroup != [] && !IsSpace(mainGroup[0]) && !IsSpace(mainGroup[|mainGroup| - 1])
    ensures forall c :: c in mainGroup ==> c != '/' && c !in GroupStops
    ensures rest != [] && rest[0] == '/'
    ensures ')' !in mainGroup + rest && '\n' !in mainGroup + rest
    ensures SubClassOf(mainGroup) == "A61K"
  {
  }

  lemma SpellSlashInsideParentheses()
    ensures "//" + "(" + "A61K31" + "/546,31:43" + ")" + [] == "//(A61K31/546,31:43)"
  {
  }

  /** "//(A61K31/546,31:43)" yields "A61K31": the slash inside the parentheses decides. */
  lemma ExampleSlashInsideParentheses()
    ensures ExtractPatentParts("//(A61K31/546,31:43)") == Some(Code("A61K31", "A61K"))
  {
    SlashInsideParenthesesPieces("//", "A61K31", "/546,31:43");
    SlashInParenthesesToken("//", "A61K31", "/546,31:43", []);
    SpellSlashInsideParentheses();
  }

  /** The main groups of the remaining examples: plain text, free of '/' and '('. */
  lemma PlainG06QGroup(mainGroup: string)
    requires mainGroup == "G06Q40" || mainGroup == "G06Q11" || mainGroup == "G06Q10"
    ensures mainGroup != [] && !IsSpace(mainGroup[0]) && !IsSpace(mainGroup[|mainGroup| - 1])
    ensures '/' !in mainGroup && '(' !in mainGroup
    ensures SubClassOf(mainGroup) == "G06Q"
  {
  }

  /** The pieces of "G06Q40/00(2012.01)I" meet the requirements of `SlashBeforeParenthesesToken`. */
  lemma SlashBeforeParenthesesPieces(suffix: string, group: string, tail: string)
    requires suffix == "00" && group == "2012.01" && tail == "I"
    ensures '(' !in suffix
    ensures ')' !in group && '\n' !in group && '/' !in group
    ensures tail != [] ==> !IsSpace(tail[|tail| - 1])
  {
  }

  lemma SpellSlashBeforeParentheses()
    ensures "G06Q40" + "/" + "00" + "(" + "2012.01" + ")" + "I" == "G06Q40/00(2012.01)I"
  {
  }

  /** "G06Q40/00(2012.01)I" yields "G06Q40": the group holds no slash, the text before '/' decides. */
  lemma ExampleSlashBeforeParentheses()
    ensures ExtractPatentParts("G06Q40/00(2012.01)I") == Some(Code("G06Q40", "G06Q"))
  {
    PlainG06QGroup("G06Q40");
    SlashBeforeParenthesesPieces("00", "2012.01", "I");
    SlashBeforeParenthesesToken("G06Q40", "00", "2012.01", "I");
    SpellSlashBeforeParentheses();
  }

  lemma SpellSlashOnly()
    ensures "G06Q11" + "/" + "10" == "G06Q11/10"
  {
  }

  /** "G06Q11/10" yields main group "G06Q11" and subclass "G06Q". */
  lemma ExampleSlashOnly()
    ensures ExtractPatentParts("G06Q11/10") == Some(Code("G06Q11", "G06Q"))
  {
    var suffix := "10";
    PlainG06QGroup("G06Q11");
    assert suffix != [] ==> !IsSpace(suffix[|suffix| - 1]);
    assert '(' !in suffix;
    SlashToken("G06Q11", suffix);
    SpellSlashOnly();
  }

  lemma SpellNoSlash()
    ensures "G06Q10" + "(2012.01)I" == "G06Q10(2012.01)I"
  {
  }

  /** "G06Q10(2012.01)I" yields "G06Q10": without a slash, the text before '(' decides. */
  lemma ExampleNoSlash()
    ensures ExtractPatentParts("G06Q10(2012.01)I") == Some(Code("G06Q10", "G06Q"))
  {
    var rest := "(2012.01)I";
    PlainG06QGroup("G06Q10");
    assert '/' !in rest;
    assert rest != [] ==> rest[0] == '(' && !IsSpace(rest[|rest| - 1]);
    NoSlashToken("G06Q10", rest);
    SpellNoSlash();
  }
}
