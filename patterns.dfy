/**
 * The two regular expressions of the parser, written as plain scans.
 * Both are a lazy group between an opening and a closing delimiter,
 * `open (.*?) close`, where `.` matches every character except '\n':
 * `re.search` takes the leftmost match, `re.findall` all leftmost
 * non-overlapping matches.
 */
module Patterns {
  import opened Wrappers
  import opened Text

  /**
   * Where a lazy group opened just before `rest` closes: the index of the
   * first `close` in `rest`, provided no '\n' comes before it.
   */
  function CloseAt(rest: string, close: char): (r: Option<nat>)
    ensures r.Some? ==> r.value < |rest| && rest[r.value] == close
    ensures r.Some? ==> forall k :: 0 <= k < r.value ==> rest[k] != close && rest[k] != '\n'
    ensures r.None? ==> forall k :: 0 <= k < |rest| && rest[k] == close ==>
                          exists m :: 0 <= m < k && rest[m] == '\n'
  {
    var j := IndexOfAny(rest, {close, '\n'});
    if j < |rest| && rest[j] == close then Some(j)
    else
      assert forall k :: 0 <= k < |rest| && rest[k] == close ==> j < k && rest[j] == '\n';
      None
  }

  /** `re.search(open (.*?) close, s)`: the content of the leftmost group. */
  function FirstGroup(s: string, open: char, close: char): (r: Option<string>)
    ensures r.Some? ==> close !in r.value && '\n' !in r.value
    ensures r.Some? ==> forall c :: c in r.value ==> c in s
    ensures open !in s ==> r == None
    decreases |s|
  {
    if s == [] then None
    else if s[0] == open && CloseAt(s[1..], close).Some? then
      var g := s[1..][..CloseAt(s[1..], close).value];
      assert forall c :: c in g ==> c in s;
      Some(g)
    else FirstGroup(s[1..], open, close)
  }

  /** `re.findall(open (.*?) close, s)`: the contents of all groups, left to right. */
  function FindAll(s: string, open: char, close: char): (r: seq<string>)
    ensures forall k :: 0 <= k < |r| ==> close !in r[k] && '\n' !in r[k]
    ensures open !in s ==> r == []
    decreases |s|
  {
    if s == [] then []
    else if s[0] == open && CloseAt(s[1..], close).Some? then
      var j := CloseAt(s[1..], close).value;
      [s[1..][..j]] + FindAll(s[1..][j + 1..], open, close)
    else FindAll(s[1..], open, close)
  }

  /** Without a closing delimiter there is no group: an unclosed `open` matches nothing. */
  lemma {:induction false} NoCloseNoGroup(s: string, open: char, close: char)
    requires close !in s
    ensures FirstGroup(s, open, close) == None
    decreases |s|
  {
    if s != [] {
      assert forall c :: c in s[1..] ==> c in s;
      NoCloseNoGroup(s[1..], open, close);
    }
  }

  /** Text without an opening delimiter holds no group: the search resumes after it. */
  lemma {:induction false} FirstGroupSkip(t: string, rest: string, open: char, close: char)
    requires open !in t
    ensures FirstGroup(t + rest, open, close) == FirstGroup(rest, open, close)
    decreases |t|
  {
    if t == [] {
      assert t + rest == rest;
    } else {
      assert (t + rest)[0] == t[0] && t[0] in t;
      assert (t + rest)[1..] == t[1..] + rest;
      FirstGroupSkip(t[1..], rest, open, close);
    }
  }

  /**
   * A first `open` with no `close` after it matches nothing, even when a
   * `close` comes before it.
   */
  lemma FirstGroupUnclosed(pre: string, rest: string, open: char, close: char)
    requires open !in pre && close !in rest
    ensures FirstGroup(pre + [open] + rest, open, close) == None
  {
    assert pre + [open] + rest == pre + ([open] + rest);
    FirstGroupSkip(pre, [open] + rest, open, close);
    assert ([open] + rest)[1..] == rest;
    NoCloseNoGroup(rest, open, close);
  }

  /** Without a closing delimiter `findall` finds nothing, whatever opening delimiters there are. */
  lemma {:induction false} NoCloseNoBlocks(s: string, open: char, close: char)
    requires close !in s
    ensures FindAll(s, open, close) == []
    decreases |s|
  {
    if s != [] {
      assert forall c :: c in s[1..] ==> c in s;
      NoCloseNoBlocks(s[1..], open, close);
    }
  }

  /** A group opened before `u` cannot close when `u` holds no `close` and a newline follows it. */
  lemma CloseAtNewline(u: string, rest: string, close: char)
    requires close !in u && close != '\n'
    ensures CloseAt(u + ['\n'] + rest, close) == None
  {
    var s := u + ['\n'] + rest;
    var j := IndexOfAny(s, {close, '\n'});
    assert s[|u|] == '\n';
    assert j <= |u|;
    assert j < |u| ==> s[j] == u[j];
  }

  /**
   * Text free of `close` up to a newline opens no group: any `open` in it
   * would have to close past the newline, so the search resumes after it.
   */
  lemma {:induction false} UnclosedLineSkipGroup(t: string, rest: string, open: char, close: char)
    requires close !in t && close != '\n' && open != '\n'
    ensures FirstGroup(t + ['\n'] + rest, open, close) == FirstGroup(rest, open, close)
    decreases |t|
  {
    var s := t + ['\n'] + rest;
    if t == [] {
      assert s[1..] == rest;
    } else {
      assert s[1..] == t[1..] + ['\n'] + rest;
      assert close !in t[1..] by {
        assert forall c :: c in t[1..] ==> c in t;
      }
      CloseAtNewline(t[1..], rest, close);
      UnclosedLineSkipGroup(t[1..], rest, open, close);
    }
  }

  /**
   * Text free of `close` up to a newline adds no result to `findall`, even
   * when it holds an `open` (such as "{" followed by a line break).
   */
  lemma {:induction false} UnclosedLineSkip(t: string, rest: string, open: char, close: char)
    requires close !in t && close != '\n' && open != '\n'
    ensures FindAll(t + ['\n'] + rest, open, close) == FindAll(rest, open, close)
    decreases |t|
  {
    var s := t + ['\n'] + rest;
    if t == [] {
      assert s[1..] == rest;
    } else {
      assert s[1..] == t[1..] + ['\n'] + rest;
      assert close !in t[1..] by {
        assert forall c :: c in t[1..] ==> c in t;
      }
      CloseAtNewline(t[1..], rest, close);
      UnclosedLineSkip(t[1..], rest, open, close);
    }
  }

  /** A group whose content holds neither `close` nor '\n' closes at its first `close`. */
  lemma CloseAtEnd(inner: string, post: string, close: char)
    requires close !in inner && '\n' !in inner
    ensures CloseAt(inner + [close] + post, close) == Some(|inner|)
  {
    var rest := inner + [close] + post;
    assert rest == inner + ([close] + post);
    PrefixBeforeAt(inner, [close] + post, {close, '\n'});
    assert rest[|inner|] == close;
  }

  /**
   * The first group is found after any text without an opening delimiter,
   * whatever follows the closing delimiter.
   */
  lemma {:induction false} FirstGroupAt(pre: string, inner: string, post: string, open: char, close: char)
    requires open !in pre
    requires close !in inner && '\n' !in inner
    ensures FirstGroup(pre + [open] + inner + [close] + post, open, close) == Some(inner)
    decreases |pre|
  {
    var s := pre + [open] + inner + [close] + post;
    if pre == [] {
      assert s[0] == open;
      assert s[1..] == inner + [close] + post;
      CloseAtEnd(inner, post, close);
      assert s[1..][..|inner|] == inner;
    } else {
      assert s[0] == pre[0] && pre[0] in pre;
      assert s[1..] == pre[1..] + [open] + inner + [close] + post;
      FirstGroupAt(pre[1..], inner, post, open, close);
    }
  }

  /** Text without an opening delimiter contributes no group to `findall`. */
  lemma {:induction false} FindAllSkip(t: string, rest: string, open: char, close: char)
    requires open !in t
    ensures FindAll(t + rest, open, close) == FindAll(rest, open, close)
    decreases |t|
  {
    if t == [] {
      assert t + rest == rest;
    } else {
      assert (t + rest)[0] == t[0] && t[0] in t;
      assert (t + rest)[1..] == t[1..] + rest;
      FindAllSkip(t[1..], rest, open, close);
    }
  }

  /** A complete group at the front of the text is the first result of `findall`. */
  lemma FindAllGroup(inner: string, rest: string, open: char, close: char)
    requires close !in inner && '\n' !in inner
    ensures FindAll([open] + inner + [close] + rest, open, close) == [inner] + FindAll(rest, open, close)
  {
    var s := [open] + inner + [close] + rest;
    assert s[1..] == inner + [close] + rest;
    CloseAtEnd(inner, rest, close);
    assert s[1..][..|inner|] == inner;
    assert s[1..][|inner| + 1..] == rest;
  }

  /** Each content wrapped in its delimiters, concatenated. */
  function Enclose(contents: seq<string>, open: char, close: char): string
    decreases |contents|
  {
    if contents == [] then [] else [open] + contents[0] + [close] + Enclose(contents[1..], open, close)
  }

  /**
   * `findall` inverts `Enclose` for contents free of `close` and '\n'
   * (an `open` inside a content is kept as part of it).
   */
  lemma {:induction false} FindAllEnclose(contents: seq<string>, open: char, close: char)
    requires forall k :: 0 <= k < |contents| ==> close !in contents[k] && '\n' !in contents[k]
    ensures FindAll(Enclose(contents, open, close), open, close) == contents
    decreases |contents|
  {
    if contents != [] {
      FindAllEnclose(contents[1..], open, close);
      FindAllGroup(contents[0], Enclose(contents[1..], open, close), open, close);
    }
  }
}
