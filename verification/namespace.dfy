/**
 * `preprocess_alert`: the substitution that drops the `cap:` namespace
 * prefix from element tags, so that `<cap:info>` reads `<info>` and
 * `</cap:info>` reads `</info>`. It is Python's `re.sub` with the pattern
 * `<(/?)cap:(\w+)` and the replacement `<\1\2`: the text is scanned from the
 * left, each match is replaced and scanning resumes after it.
 */
module Namespace {
  import opened Wrappers
  import opened Text

  /**
   * The regular-expression class `\w` (Unicode letters, digits and the
   * underscore). Not modelled: it is any predicate on characters.
   */
  type WordClass = char -> bool

  const CapPrefix: string := "cap:"

  /** The length of the longest run of word characters at the start of `s`: what greedy `\w+` tries first. */
  function WordRun(s: string, isWord: WordClass): (n: nat)
    ensures n <= |s|
    ensures forall i :: 0 <= i < n ==> isWord(s[i])
    ensures n < |s| ==> !isWord(s[n])
  {
    if s == [] || !isWord(s[0]) then 0 else 1 + WordRun(s[1..], isWord)
  }

  /** One match of the pattern: the optional slash, the tag name after the prefix, and how many characters it spans. */
  datatype Match = Match(slash: string, name: string, length: nat)

  /**
   * The match of the pattern at the start of `s`, if any. When a '/' follows
   * the '<', the branch without it cannot match either (it would need 'c'
   * there), so the optional slash never needs backtracking; the tag name is
   * the whole run of word characters.
   */
  function MatchAt(s: string, isWord: WordClass): (m: Option<Match>)
    ensures m.Some? ==> 0 < m.value.length <= |s|
    ensures m.Some? ==> m.value.slash == "" || m.value.slash == "/"
    ensures m.Some? ==> s[..m.value.length] == "<" + m.value.slash + CapPrefix + m.value.name
    ensures m.Some? ==> m.value.name != [] && forall i :: 0 <= i < |m.value.name| ==> isWord(m.value.name[i])
    ensures m.Some? && m.value.length < |s| ==> !isWord(s[m.value.length])
    ensures m.Some? ==> |m.value.slash| + |m.value.name| + 5 == m.value.length
  {
    if |s| == 0 || s[0] != '<' then None
    else
      var slash := if |s| >= 2 && s[1] == '/' then "/" else "";
      var start := 1 + |slash| + |CapPrefix|;
      if |s| < start || s[1 + |slash| .. start] != CapPrefix then None
      else
        var rest := s[start..];
        var n := WordRun(rest, isWord);
        if n == 0 then None
        else
          var name := rest[..n];
          assert forall i :: 0 <= i < n ==> name[i] == rest[i];
          assert name == s[start..start + n];
          assert s[..start + n] == "<" + slash + CapPrefix + name;
          Some(Match(slash, name, start + n))
  }

  /** `re.sub(r"<(/?)cap:(\w+)", r"<\1\2", s)`. */
  function StripCapPrefix(s: string, isWord: WordClass): (r: string)
    ensures |r| <= |s|
    decreases |s|
  {
    if s == [] then []
    else
      match MatchAt(s, isWord)
      case Some(m) => "<" + m.slash + m.name + StripCapPrefix(s[m.length..], isWord)
      case None => [s[0]] + StripCapPrefix(s[1..], isWord)
  }

  /** No position of `s` starts a prefixed tag. */
  predicate NoPrefixedTag(s: string, isWord: WordClass) {
    forall i :: 0 <= i < |s| ==> MatchAt(s[i..], isWord).None?
  }

  /** A text with a prefixed tag anywhere comes out shorter: the prefix is dropped. */
  lemma {:induction false} StripShortens(s: string, isWord: WordClass, i: nat)
    requires i < |s| && MatchAt(s[i..], isWord).Some?
    ensures |StripCapPrefix(s, isWord)| < |s|
    decreases |s|
  {
    var m := MatchAt(s, isWord);
    if m.None? {
      assert i > 0;
      assert s[1..][i - 1..] == s[i..];
      StripShortens(s[1..], isWord, i - 1);
    }
  }

  /** A text with no prefixed tag comes out as it went in. */
  lemma {:induction false} StripUntagged(s: string, isWord: WordClass)
    requires NoPrefixedTag(s, isWord)
    ensures StripCapPrefix(s, isWord) == s
    decreases |s|
  {
    if s != [] {
      assert s[0..] == s;
      assert NoPrefixedTag(s[1..], isWord) by {
        forall i | 0 <= i < |s[1..]| ensures MatchAt(s[1..][i..], isWord).None? {
          assert s[1..][i..] == s[i + 1..];
        }
      }
      StripUntagged(s[1..], isWord);
    }
  }

  /** The substitution leaves the text unchanged exactly when it holds no prefixed tag. */
  lemma StripUnchangedIff(s: string, isWord: WordClass)
    ensures StripCapPrefix(s, isWord) == s <==> NoPrefixedTag(s, isWord)
  {
    if NoPrefixedTag(s, isWord) {
      StripUntagged(s, isWord);
    } else {
      var i :| 0 <= i < |s| && MatchAt(s[i..], isWord).Some?;
      StripShortens(s, isWord, i);
    }
  }

  /** A tag name: a non-empty run of word characters. */
  predicate IsTagName(name: string, isWord: WordClass) {
    name != [] && forall i :: 0 <= i < |name| ==> isWord(name[i])
  }

  /** The run of word characters of `name + rest` is `name` when `rest` does not start with one. */
  lemma {:induction false} WordRunOf(name: string, rest: string, isWord: WordClass)
    requires forall i :: 0 <= i < |name| ==> isWord(name[i])
    requires rest == [] || !isWord(rest[0])
    ensures WordRun(name + rest, isWord) == |name|
    decreases |name|
  {
    if name != [] {
      assert (name + rest)[1..] == name[1..] + rest;
      WordRunOf(name[1..], rest, isWord);
    } else {
      assert name + rest == rest;
    }
  }

  /** The pattern matches an opening tag `<cap:name` followed by a non-word character. */
  lemma MatchOpenTag(name: string, rest: string, isWord: WordClass)
    requires IsTagName(name, isWord)
    requires rest == [] || !isWord(rest[0])
    ensures MatchAt("<" + CapPrefix + name + rest, isWord) == Some(Match("", name, 5 + |name|))
  {
    var s := "<" + CapPrefix + name + rest;
    assert s[1..5] == CapPrefix && s[1] != '/';
    assert s[5..] == name + rest;
    WordRunOf(name, rest, isWord);
    assert s[5..][..|name|] == name;
  }

  /** The pattern matches a closing tag `</cap:name` followed by a non-word character. */
  lemma MatchCloseTag(name: string, rest: string, isWord: WordClass)
    requires IsTagName(name, isWord)
    requires rest == [] || !isWord(rest[0])
    ensures MatchAt("</" + CapPrefix + name + rest, isWord) == Some(Match("/", name, 6 + |name|))
  {
    var s := "</" + CapPrefix + name + rest;
    assert s[1] == '/' && s[2..6] == CapPrefix;
    assert s[6..] == name + rest;
    WordRunOf(name, rest, isWord);
    assert s[6..][..|name|] == name;
  }

  /** An opening tag `<cap:name` becomes `<name`, and scanning goes on after the name. */
  lemma StripOpenTag(name: string, rest: string, isWord: WordClass)
    requires IsTagName(name, isWord)
    requires rest == [] || !isWord(rest[0])
    ensures StripCapPrefix("<" + CapPrefix + name + rest, isWord) == "<" + name + StripCapPrefix(rest, isWord)
  {
    var s := "<" + CapPrefix + name + rest;
    MatchOpenTag(name, rest, isWord);
    assert s[5 + |name|..] == rest;
    assert "<" + "" + name == "<" + name;
  }

  /** A closing tag `</cap:name` becomes `</name`, and scanning goes on after the name. */
  lemma StripCloseTag(name: string, rest: string, isWord: WordClass)
    requires IsTagName(name, isWord)
    requires rest == [] || !isWord(rest[0])
    ensures StripCapPrefix("</" + CapPrefix + name + rest, isWord) == "</" + name + StripCapPrefix(rest, isWord)
  {
    var s := "</" + CapPrefix + name + rest;
    MatchCloseTag(name, rest, isWord);
    assert s[6 + |name|..] == rest;
    assert "<" + "/" + name == "</" + name;
  }

  /** Text without '<' passes through unchanged, whatever follows it. */
  lemma {:induction false} StripPlainPrefix(text: string, rest: string, isWord: WordClass)
    requires '<' !in text
    ensures StripCapPrefix(text + rest, isWord) == text + StripCapPrefix(rest, isWord)
    decreases |text|
  {
    if text == [] {
      assert text + rest == rest;
    } else {
      var s := text + rest;
      assert s[0] == text[0] && s[1..] == text[1..] + rest;
      StripPlainPrefix(text[1..], rest, isWord);
      assert text == [text[0]] + text[1..];
    }
  }

  /**
   * Characters at which no prefixed tag starts are copied unchanged, whatever
   * follows them: a '<' that opens something else (`<?xml`, `<other:tag`) is
   * kept even when a prefixed tag comes after it.
   */
  lemma {:induction false} StripKeepsUntagged(a: string, b: string, isWord: WordClass)
    requires forall i :: 0 <= i < |a| ==> MatchAt((a + b)[i..], isWord).None?
    ensures StripCapPrefix(a + b, isWord) == a + StripCapPrefix(b, isWord)
    decreases |a|
  {
    if a == [] {
      assert a + b == b;
    } else {
      var s := a + b;
      var t := StripCapPrefix(b, isWord);
      UntaggedTail(a, b, isWord);
      StripUnmatched(s, isWord);
      assert s[0] == a[0] && s[1..] == a[1..] + b;
      StripKeepsUntagged(a[1..], b, isWord);
      assert a == [a[0]] + a[1..];
      Associative([a[0]], a[1..], t);
    }
  }

  /** Where no prefixed tag starts, the first character is copied and scanning moves on by one. */
  lemma StripUnmatched(s: string, isWord: WordClass)
    requires s != [] && MatchAt(s[0..], isWord).None?
    ensures StripCapPrefix(s, isWord) == [s[0]] + StripCapPrefix(s[1..], isWord)
  {
    assert s[0..] == s;
  }

  /** The untagged positions of `a + b` after the first are those of `a[1..] + b`. */
  lemma UntaggedTail(a: string, b: string, isWord: WordClass)
    requires a != []
    requires forall i :: 0 <= i < |a| ==> MatchAt((a + b)[i..], isWord).None?
    ensures forall i :: 0 <= i < |a| - 1 ==> MatchAt((a[1..] + b)[i..], isWord).None?
  {
    forall i | 0 <= i < |a| - 1
      ensures MatchAt((a[1..] + b)[i..], isWord).None?
    {
      assert (a[1..] + b)[i..] == (a + b)[i + 1..];
    }
  }

  /**
   * A processing instruction such as the XML declaration `<?xml ...?>` is
   * kept as it is, and the substitution goes on after it.
   */
  lemma StripKeepsDeclaration(decl: string, rest: string, isWord: WordClass)
    requires |decl| >= 2 && decl[0] == '<' && decl[1] == '?' && '<' !in decl[1..]
    ensures StripCapPrefix(decl + rest, isWord) == decl + StripCapPrefix(rest, isWord)
  {
    var s := decl + rest;
    forall i | 0 <= i < |decl|
      ensures MatchAt(s[i..], isWord).None?
    {
      if i == 0 {
        assert s[i..][1] == '?';
      } else {
        assert decl[i] == decl[1..][i - 1];
        assert s[i..][0] == decl[i];
      }
    }
    StripKeepsUntagged(decl, rest, isWord);
  }

  /** A closing tag `</cap:name>` becomes `</name>`. */
  lemma StripClosingTag(name: string, isWord: WordClass)
    requires IsTagName(name, isWord) && !isWord('>')
    ensures StripCapPrefix("</" + CapPrefix + name + ">", isWord) == "</" + name + ">"
  {
    StripCloseTag(name, ">", isWord);
    assert StripCapPrefix(">", isWord) == ">";
  }

  /**
   * An element `<cap:name>text</cap:name>` whose text holds no tag becomes
   * `<name>text</name>`.
   */
  lemma StripElement(name: string, text: string, isWord: WordClass)
    requires IsTagName(name, isWord) && !isWord('>')
    requires '<' !in text
    ensures StripCapPrefix(("<" + CapPrefix + name + ">") + text + ("</" + CapPrefix + name + ">"), isWord)
         == ("<" + name + ">") + text + ("</" + name + ">")
  {
    var opening := "<" + CapPrefix + name;
    var closing := "</" + CapPrefix + name + ">";
    var body := ">" + text;
    Associative(opening, ">", text);
    Associative(opening, body, closing);
    StripOpenTag(name, body + closing, isWord);
    StripPlainPrefix(body, closing, isWord);
    StripClosingTag(name, isWord);
    var short := "<" + name;
    Associative(short, ">", text);
    Associative(short, body, "</" + name + ">");
  }

  /**
   * The substitution is not idempotent: in `<cap:cap:x` the tag name is
   * `cap`, which stops at the ':', so each pass drops one prefix and
   * `<cap:x` is left after the first.
   */
  lemma StripNotIdempotent(first: string, name: string, isWord: WordClass)
    requires IsTagName(first, isWord) && IsTagName(name, isWord) && !isWord(':')
    requires '<' !in name
    ensures StripCapPrefix("<" + CapPrefix + first + ":" + name, isWord) == "<" + first + ":" + name
    ensures StripCapPrefix("<" + CapPrefix + name, isWord) == "<" + name
  {
    var tail := ":" + name;
    Associative("<" + CapPrefix + first, ":", name);
    StripOpenTag(first, tail, isWord);
    StripPlainPrefix(tail, [], isWord);
    assert tail + [] == tail;
    Associative("<" + first, ":", name);
    assert "<" + CapPrefix + name + [] == "<" + CapPrefix + name;
    StripOpenTag(name, [], isWord);
  }
}
