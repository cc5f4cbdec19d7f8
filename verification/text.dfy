/**
 * The Python string operations the converter relies on, over `string` (a
 * sequence of Unicode characters): `s.split(sep)` for a one-character
 * separator, `s.split()` on runs of whitespace, `sep.join(parts)` and
 * `s.replace(c, "")`.
 */
module Text {

  /** Python's `str.isspace()`: the characters `str.split()` without arguments splits on. */
  predicate IsSpace(c: char) {
    || c == ' '
    || ('\t' <= c <= '\r')               // tab, line feed, vertical tab, form feed, carriage return
    || ('\U{1C}' <= c <= '\U{1F}')        // file, group, record and unit separators
    || c == '\U{85}' || c == '\U{A0}' || c == '\U{1680}'
    || ('\U{2000}' <= c <= '\U{200A}')
    || c == '\U{2028}' || c == '\U{2029}' || c == '\U{202F}' || c == '\U{205F}' || c == '\U{3000}'
  }

  /** No character of `s` is whitespace. */
  predicate NoSpace(s: string) {
    forall i :: 0 <= i < |s| ==> !IsSpace(s[i])
  }

  /** The number of occurrences of `c` in `s`. */
  function Count(s: string, c: char): nat {
    if s == [] then 0 else (if s[0] == c then 1 else 0) + Count(s[1..], c)
  }

  /**
   * Python's `s.split(sep)` for a one-character separator: the pieces between
   * the occurrences of `sep`, empty pieces included, so never an empty list.
   */
  function Split(s: string, sep: char): (parts: seq<string>)
    ensures |parts| == Count(s, sep) + 1
    ensures forall i :: 0 <= i < |parts| ==> sep !in parts[i]
    decreases |s|
  {
    if s == [] then [""]
    else
      var rest := Split(s[1..], sep);
      if s[0] == sep then [""] + rest
      else [[s[0]] + rest[0]] + rest[1..]
  }

  /** Python's `sep.join(parts)`. */
  function Join(parts: seq<string>, sep: string): (r: string)
    ensures |parts| >= 1 ==> |r| == |Concat(parts)| + (|parts| - 1) * |sep|
  {
    if |parts| == 0 then ""
    else if |parts| == 1 then parts[0]
    else parts[0] + sep + Join(parts[1..], sep)
  }

  /** Python's `s.replace(c, "")`: every occurrence of `c` deleted, the rest kept in order. */
  function Remove(s: string, c: char): (r: string)
    ensures c !in r
    ensures |r| == |s| - Count(s, c)
  {
    if s == [] then "" else (if s[0] == c then "" else [s[0]]) + Remove(s[1..], c)
  }

  /** The non-whitespace characters of `s`, in order. */
  function Unspaced(s: string): string {
    if s == [] then "" else (if IsSpace(s[0]) then "" else [s[0]]) + Unspaced(s[1..])
  }

  /** The concatenation of `parts`. */
  function Concat(parts: seq<string>): string {
    if parts == [] then "" else parts[0] + Concat(parts[1..])
  }

  /** Length of the run of non-whitespace characters that `s` starts with. */
  function WordLength(s: string): (n: nat)
    ensures n <= |s|
    ensures NoSpace(s[..n])
    ensures n < |s| ==> IsSpace(s[n])
  {
    if s == [] || IsSpace(s[0]) then 0 else 1 + WordLength(s[1..])
  }

  /**
   * Python's `s.split()` without arguments: the maximal runs of non-whitespace
   * characters, in order; leading, trailing and repeated whitespace give no
   * empty words.
   */
  function Words(s: string): (ws: seq<string>)
    ensures forall i :: 0 <= i < |ws| ==> ws[i] != "" && NoSpace(ws[i])
    decreases |s|
  {
    if s == [] then []
    else if IsSpace(s[0]) then Words(s[1..])
    else
      var n := WordLength(s);
      [s[..n]] + Words(s[n..])
  }

  /** `tail` prepended to every element of `parts`. */
  function Prefixed(tail: string, parts: seq<string>): (r: seq<string>) {
    seq(|parts|, i requires 0 <= i < |parts| => tail + parts[i])
  }

  // ---------------------------------------------------------------------
  // split(sep) and join

  /** Joining the pieces of a split with the separator gives back the string. */
  lemma {:induction false} JoinSplit(s: string, sep: char)
    ensures Join(Split(s, sep), [sep]) == s
    decreases |s|
  {
    if s != [] {
      var rest := Split(s[1..], sep);
      JoinSplit(s[1..], sep);
      if s[0] != sep && |rest| >= 2 {
        assert Join(rest, [sep]) == rest[0] + [sep] + Join(rest[1..], [sep]);
        assert s == [s[0]] + s[1..];
      }
    }
  }

  /** A string without the separator is one piece. */
  lemma {:induction false} SplitWithoutSeparator(s: string, sep: char)
    requires sep !in s
    ensures Split(s, sep) == [s]
    decreases |s|
  {
    if s != [] {
      SplitWithoutSeparator(s[1..], sep);
      assert s == [s[0]] + s[1..];
    }
  }

  /** A separator splits the string into the pieces of its two sides. */
  lemma {:induction false} SplitAtSeparator(a: string, b: string, sep: char)
    ensures Split(a + [sep] + b, sep) == Split(a, sep) + Split(b, sep)
    decreases |a|
  {
    var s := a + [sep] + b;
    if a == [] {
      assert s[1..] == b;
    } else {
      assert s[1..] == a[1..] + [sep] + b;
      SplitAtSeparator(a[1..], b, sep);
    }
  }

  /** A prefix without the separator is glued onto the first piece. */
  lemma {:induction false} SplitAfterPlainPrefix(t: string, x: string, sep: char)
    requires sep !in t
    ensures Split(t + x, sep) == [t + Split(x, sep)[0]] + Split(x, sep)[1..]
    decreases |t|
  {
    var px := Split(x, sep);
    if t == [] {
      assert t + x == x;
      assert |px| >= 1 && t + px[0] == px[0];
      assert px == [px[0]] + px[1..];
    } else {
      assert (t + x)[0] == t[0] && t[0] != sep;
      assert (t + x)[1..] == t[1..] + x;
      SplitAfterPlainPrefix(t[1..], x, sep);
      assert [t[0]] + (t[1..] + px[0]) == t + px[0];
    }
  }

  /**
   * Splitting `parts` joined with a separator that starts with `sep` (and
   * holds no other `sep`) gives the parts back, each but the first carrying
   * the rest of the separator in front: `Split("A, B", ',') == ["A", " B"]`.
   */
  lemma {:induction false} SplitJoin(parts: seq<string>, sep: char, tail: string)
    requires |parts| >= 1
    requires forall i :: 0 <= i < |parts| ==> sep !in parts[i]
    requires sep !in tail
    ensures Split(Join(parts, [sep] + tail), sep) == [parts[0]] + Prefixed(tail, parts[1..])
    decreases |parts|
  {
    if |parts| == 1 {
      SplitWithoutSeparator(parts[0], sep);
    } else {
      var rest := Join(parts[1..], [sep] + tail);
      assert Join(parts, [sep] + tail) == parts[0] + [sep] + (tail + rest);
      SplitAtSeparator(parts[0], tail + rest, sep);
      SplitWithoutSeparator(parts[0], sep);
      SplitJoin(parts[1..], sep, tail);
      SplitAfterPlainPrefix(tail, rest, sep);
      assert Prefixed(tail, parts[1..]) == [tail + parts[1]] + Prefixed(tail, parts[2..]);
    }
  }

  /** A plain `sep.join` of parts without the separator splits back into exactly those parts. */
  lemma SplitJoinRoundTrip(parts: seq<string>, sep: char)
    requires |parts| >= 1
    requires forall i :: 0 <= i < |parts| ==> sep !in parts[i]
    ensures Split(Join(parts, [sep]), sep) == parts
  {
    SplitJoin(parts, sep, "");
    assert [sep] + "" == [sep];
    var tail := parts[1..];
    assert Prefixed("", tail) == tail by {
      forall i | 0 <= i < |tail| ensures Prefixed("", tail)[i] == tail[i] {
        assert "" + tail[i] == tail[i];
      }
    }
    assert [parts[0]] + tail == parts;
  }

  /** `sep.join(parts)` is the first part followed by every later part with `sep` in front. */
  lemma {:induction false} JoinAsConcat(parts: seq<string>, sep: string)
    requires |parts| >= 1
    ensures Join(parts, sep) == parts[0] + Concat(Prefixed(sep, parts[1..]))
    decreases |parts|
  {
    if |parts| == 1 {
      assert Prefixed(sep, parts[1..]) == [];
      assert parts[0] + "" == parts[0];
    } else {
      JoinAsConcat(parts[1..], sep);
      var later := Prefixed(sep, parts[1..]);
      assert later[0] == sep + parts[1];
      assert later[1..] == Prefixed(sep, parts[2..]);
      assert parts[1..][1..] == parts[2..];
      assert Concat(later) == sep + parts[1] + Concat(Prefixed(sep, parts[2..]));
      Associative(parts[0], sep, parts[1] + Concat(Prefixed(sep, parts[2..])));
      Associative(sep, parts[1], Concat(Prefixed(sep, parts[2..])));
    }
  }

  // ---------------------------------------------------------------------
  // replace(c, "")

  /** Removing a character that does not occur changes nothing. */
  lemma {:induction false} RemoveAbsent(s: string, c: char)
    requires c !in s
    ensures Remove(s, c) == s
    decreases |s|
  {
    if s != [] {
      RemoveAbsent(s[1..], c);
      assert s == [s[0]] + s[1..];
    }
  }

  /** Deleting a character distributes over concatenation. */
  lemma {:induction false} RemoveAppend(a: string, b: string, c: char)
    ensures Remove(a + b, c) == Remove(a, c) + Remove(b, c)
    decreases |a|
  {
    if a == [] {
      assert a + b == b;
    } else {
      assert (a + b)[0] == a[0];
      assert (a + b)[1..] == a[1..] + b;
      RemoveAppend(a[1..], b, c);
    }
  }

  /**
   * Concatenation is associative. A hint for the verifier only: it regroups
   * a concatenation of three strings where that step is otherwise costly.
   */
  lemma Associative(a: string, b: string, c: string)
    ensures a + b + c == a + (b + c)
  {
  }

  /** Deleting the one occurrence of `c` at the front of `b`. */
  lemma RemoveLeading(b: string, c: char)
    requires c !in b
    ensures Remove([c] + b, c) == b
  {
    RemoveAppend([c], b, c);
    assert Remove([c], c) == [];
    RemoveAbsent(b, c);
  }

  /** Deleting the one occurrence of `c` between `a` and `b`, neither holding it, joins them. */
  lemma RemoveBetween(a: string, b: string, c: char)
    requires c !in a && c !in b
    ensures Remove(a + [c] + b, c) == a + b
  {
    var cb := [c] + b;
    Associative(a, [c], b);
    RemoveAppend(a, cb, c);
    RemoveLeading(b, c);
    RemoveAbsent(a, c);
  }

  // ---------------------------------------------------------------------
  // split() on whitespace

  /** Two strings without whitespace concatenate to one. */
  lemma NoSpaceAppend(a: string, b: string)
    requires NoSpace(a) && NoSpace(b)
    ensures NoSpace(a + b)
  {
  }

  /** A string without whitespace holds no whitespace character. */
  lemma SpaceNotIn(s: string, c: char)
    requires NoSpace(s) && IsSpace(c)
    ensures c !in s
  {
  }

  /** Unspaced distributes over concatenation. */
  lemma {:induction false} UnspacedAppend(a: string, b: string)
    ensures Unspaced(a + b) == Unspaced(a) + Unspaced(b)
    decreases |a|
  {
    if a == [] {
      assert a + b == b;
    } else {
      assert (a + b)[0] == a[0];
      assert (a + b)[1..] == a[1..] + b;
      UnspacedAppend(a[1..], b);
    }
  }

  /** A string without whitespace is its own Unspaced. */
  lemma {:induction false} UnspacedOfWord(w: string)
    requires NoSpace(w)
    ensures Unspaced(w) == w
    decreases |w|
  {
    if w != [] {
      UnspacedOfWord(w[1..]);
      assert w == [w[0]] + w[1..];
    }
  }

  /** The words of `s`, put back together, are exactly its non-whitespace characters. */
  lemma {:induction false} WordsCoverText(s: string)
    ensures Concat(Words(s)) == Unspaced(s)
    decreases |s|
  {
    if s != [] {
      if IsSpace(s[0]) {
        WordsCoverText(s[1..]);
      } else {
        var n := WordLength(s);
        WordsCoverText(s[n..]);
        assert s == s[..n] + s[n..];
        UnspacedAppend(s[..n], s[n..]);
        UnspacedOfWord(s[..n]);
      }
    }
  }

  /** A word followed by whitespace or nothing is the leading run. */
  lemma {:induction false} WordLengthOf(w: string, rest: string)
    requires NoSpace(w)
    requires rest == [] || IsSpace(rest[0])
    ensures WordLength(w + rest) == |w|
    decreases |w|
  {
    if w != [] {
      assert (w + rest)[1..] == w[1..] + rest;
      WordLengthOf(w[1..], rest);
    }
  }

  /** A single word is its own only word. */
  lemma WordsOfWord(w: string)
    requires w != "" && NoSpace(w)
    ensures Words(w) == [w]
  {
    WordLengthOf(w, "");
    assert w + "" == w;
    assert !IsSpace(w[0]);
    assert w[..|w|] == w && w[|w|..] == "";
  }

  /** A word followed by a space is the first word. */
  lemma WordsAfterWord(w: string, rest: string)
    requires w != "" && NoSpace(w)
    ensures Words(w + " " + rest) == [w] + Words(rest)
  {
    var s := w + " " + rest;
    assert s == w + (" " + rest);
    assert IsSpace(' ');
    WordLengthOf(w, " " + rest);
    assert !IsSpace(s[0]);
    assert s[..|w|] == w;
    var after := s[|w|..];
    assert after == " " + rest;
    assert after[1..] == rest;
    assert Words(after) == Words(rest);
  }

  /** Words separated by single spaces are split back into those words. */
  lemma {:induction false} WordsJoin(ws: seq<string>)
    requires forall i :: 0 <= i < |ws| ==> ws[i] != "" && NoSpace(ws[i])
    ensures Words(Join(ws, " ")) == ws
    decreases |ws|
  {
    if |ws| == 1 {
      WordsOfWord(ws[0]);
    } else if |ws| >= 2 {
      assert Join(ws, " ") == ws[0] + " " + Join(ws[1..], " ");
      WordsAfterWord(ws[0], Join(ws[1..], " "));
      WordsJoin(ws[1..]);
    }
  }

  /** The first word of `a` is the first word of `a + rest` when `rest` starts with whitespace or is empty. */
  lemma {:induction false} WordLengthBefore(a: string, rest: string)
    requires rest == [] || IsSpace(rest[0])
    ensures WordLength(a + rest) == WordLength(a)
    decreases |a|
  {
    if a == [] {
      assert a + rest == rest;
    } else {
      assert (a + rest)[0] == a[0];
      assert (a + rest)[1..] == a[1..] + rest;
      WordLengthBefore(a[1..], rest);
    }
  }

  /** A whitespace character separates words: the words of `a`, then those of `b`. */
  lemma {:induction false} WordsAtSpace(a: string, b: string, c: char)
    requires IsSpace(c)
    ensures Words(a + [c] + b) == Words(a) + Words(b)
    decreases |a|
  {
    var s := a + [c] + b;
    if a == [] {
      assert s == [c] + b;
      assert s[1..] == b;
    } else if IsSpace(a[0]) {
      assert s[0] == a[0];
      assert s[1..] == a[1..] + [c] + b;
      WordsAtSpace(a[1..], b, c);
    } else {
      Associative(a, [c], b);
      WordLengthBefore(a, [c] + b);
      var n := WordLength(a);
      assert s[0] == a[0];
      assert s[..n] == a[..n];
      assert s[n..] == a[n..] + [c] + b;
      WordsAtSpace(a[n..], b, c);
    }
  }

  /** A text of whitespace only has no words. */
  lemma {:induction false} WordsOfSpaces(s: string)
    requires forall i :: 0 <= i < |s| ==> IsSpace(s[i])
    ensures Words(s) == []
    decreases |s|
  {
    if s != [] {
      WordsOfSpaces(s[1..]);
    }
  }

  /** Deleting a whitespace character does not change the non-whitespace characters. */
  lemma {:induction false} UnspacedRemoveSpace(s: string, c: char)
    requires IsSpace(c)
    ensures Unspaced(Remove(s, c)) == Unspaced(s)
    decreases |s|
  {
    if s != [] {
      UnspacedRemoveSpace(s[1..], c);
      var head := if s[0] == c then "" else [s[0]];
      UnspacedAppend(head, Remove(s[1..], c));
      if s[0] != c {
        assert Unspaced(head) == if IsSpace(s[0]) then "" else [s[0]];
      }
    }
  }
}
