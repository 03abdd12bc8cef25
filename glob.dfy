/**
 * The matcher behind `pathlib.Path.glob`, which `find_matching_paths` calls
 * but does not implement. It follows the shell pattern notation of POSIX.1-2017
 * (XCU section 2.13) as Python's `fnmatch` translates it, one path segment at a
 * time, and adds the recursive `**` segment:
 *   - `*` matches any run of characters inside one segment, the empty run too;
 *   - `?` matches exactly one character;
 *   - `[...]` matches one character of the set and `[!...]` one character not
 *     in it; `a-z` inside the brackets is an inclusive range;
 *   - a segment that is exactly `**` matches zero or more whole segments.
 * A segment never matches across a separator: a pattern segment is matched
 * against one path part.
 */
module Glob {
  import opened Wrappers
  import opened Paths

  /** One member of a bracket expression. */
  datatype ClassItem = Single(c: char) | Range(lo: char, hi: char)

  /** One unit of a compiled segment pattern. */
  datatype Token =
    | Literal(c: char)                                  // an ordinary character
    | AnyChar                                           // ?
    | AnyRun                                            // *
    | CharClass(negated: bool, items: seq<ClassItem>)   // [...] or [!...]

  /** The first index at or after `from` where `s` holds `c`. */
  function IndexOf(s: string, c: char, from: nat): (r: Option<nat>)
    requires from <= |s|
    ensures r.Some? ==> from <= r.value < |s| && s[r.value] == c
    ensures r.Some? ==> forall k | from <= k < r.value :: s[k] != c
    ensures r.None? ==> forall k | from <= k < |s| :: s[k] != c
    decreases |s| - from
  {
    if from == |s| then None
    else if s[from] == c then Some(from)
    else IndexOf(s, c, from + 1)
  }

  /**
   * The index of the `]` that closes the bracket expression opened by
   * `pat[0]`, or None when it is never closed (the `[` is then an ordinary
   * character). As in `fnmatch`, a `]` right after the `[` or the `[!` is a
   * member of the set, not its end, so the set is never empty.
   */
  function BracketEnd(pat: string): (r: Option<nat>)
    requires |pat| > 0 && pat[0] == '['
    ensures r.Some? ==> 2 <= r.value < |pat| && pat[r.value] == ']'
    ensures r.Some? && pat[1] == '!' ==> 3 <= r.value
  {
    var afterBang := if 1 < |pat| && pat[1] == '!' then 2 else 1;
    var searchFrom := if afterBang < |pat| && pat[afterBang] == ']' then afterBang + 1 else afterBang;
    IndexOf(pat, ']', searchFrom)
  }

  /**
   * The members of a bracket expression: `x-y` is a range, any other
   * character stands for itself (so a `-` first or last is a member).
   */
  function ClassItems(body: string): seq<ClassItem>
    decreases |body|
  {
    if body == [] then []
    else if |body| >= 3 && body[1] == '-' then [Range(body[0], body[2])] + ClassItems(body[3..])
    else [Single(body[0])] + ClassItems(body[1..])
  }

  /** The token for the text between `[` and `]`. */
  function Bracket(body: string): Token {
    if |body| > 0 && body[0] == '!' then CharClass(true, ClassItems(body[1..]))
    else CharClass(false, ClassItems(body))
  }

  /** Compiles one segment pattern, left to right, as `fnmatch.translate` does. */
  function Tokenize(pat: string): seq<Token>
    decreases |pat|
  {
    if pat == [] then []
    else if pat[0] == '*' then [AnyRun] + Tokenize(pat[1..])
    else if pat[0] == '?' then [AnyChar] + Tokenize(pat[1..])
    else if pat[0] == '[' && BracketEnd(pat).Some? then
      var close := BracketEnd(pat).value;
      [Bracket(pat[1..close])] + Tokenize(pat[close + 1..])
    else [Literal(pat[0])] + Tokenize(pat[1..])
  }

  predicate InItems(items: seq<ClassItem>, c: char) {
    exists i | 0 <= i < |items| :: match items[i]
      case Single(x) => x == c
      case Range(lo, hi) => lo <= c <= hi
  }

  /** Whether a single-character token accepts `c`. */
  predicate Accepts(t: Token, c: char)
    requires !t.AnyRun?
  {
    match t
    case Literal(x) => x == c
    case AnyChar => true
    case CharClass(negated, items) => InItems(items, c) != negated
  }

  /** Whether the compiled pattern `ts` matches the whole of `name`. */
  predicate MatchTokens(ts: seq<Token>, name: string)
    decreases |ts| + |name|
  {
    if ts == [] then name == []
    else if ts[0].AnyRun? then
      MatchTokens(ts[1..], name) || (name != [] && MatchTokens(ts, name[1..]))
    else
      name != [] && Accepts(ts[0], name[0]) && MatchTokens(ts[1..], name[1..])
  }

  /** Whether the segment pattern `pat` matches the path part `name`. */
  predicate MatchSegment(pat: string, name: string) {
    MatchTokens(Tokenize(pat), name)
  }

  /**
   * Whether the pattern segment `seg` matches the path part `part`. The root
   * part `/` is matched only by the segment `/` itself: a glob below `.`
   * lists the entries of `.` and never reaches the root of the filesystem.
   */
  predicate MatchPart(seg: string, part: string) {
    (part == Root ==> seg == Root) && MatchSegment(seg, part)
  }

  /** The recursive wildcard segment. */
  const DoubleStar: string := "**"

  /**
   * Whether the multi-segment pattern matches the relative path `rel`.
   * A `**` segment consumes zero or more parts, none of them the root;
   * every other pattern segment consumes exactly one.
   */
  predicate MatchPath(pattern: seq<string>, rel: Path)
    decreases |pattern| + |rel|
  {
    if pattern == [] then rel == []
    else if pattern[0] == DoubleStar then
      MatchPath(pattern[1..], rel) || (rel != [] && rel[0] != Root && MatchPath(pattern, rel[1..]))
    else
      rel != [] && MatchPart(pattern[0], rel[0]) && MatchPath(pattern[1..], rel[1..])
  }

  /**
   * `base.glob(pattern)`: every entry, file or directory, whose path lies
   * under `base` and whose part below `base` the pattern matches.
   */
  function GlobEntries(fs: Tree, base: Path, pattern: seq<string>): set<Path> {
    set p | p in fs && IsPrefix(base, p) && MatchPath(pattern, p[|base|..])
  }

  // ---------------------------------------------------------------------
  // Segment-level semantics
  // ---------------------------------------------------------------------

  /**
   * A prefix free of `*`, `?` and `[` is matched character for character:
   * `lit + rest` matches `name` iff `name` starts with `lit` and `rest`
   * matches the remainder.
   */
  lemma {:induction false} LiteralPrefix(lit: string, rest: string, name: string)
    requires forall i | 0 <= i < |lit| :: lit[i] != '*' && lit[i] != '?' && lit[i] != '['
    ensures MatchSegment(lit + rest, name)
        <==> |lit| <= |name| && name[..|lit|] == lit && MatchSegment(rest, name[|lit|..])
    decreases |lit|
  {
    if lit == [] {
      assert lit + rest == rest;
      assert name[0..] == name;
    } else {
      var pat := lit + rest;
      assert pat[0] == lit[0] && pat[1..] == lit[1..] + rest;
      var ts := Tokenize(pat);
      assert ts == [Literal(lit[0])] + Tokenize(pat[1..]);
      assert ts[1..] == Tokenize(lit[1..] + rest);
      if name != [] {
        LiteralPrefix(lit[1..], rest, name[1..]);
        if |lit| <= |name| {
          assert name[1..][|lit| - 1..] == name[|lit|..];
          assert name[..|lit|] == [name[0]] + name[1..][..|lit| - 1];
          assert lit == [lit[0]] + lit[1..];
        }
      }
    }
  }

  /** A segment with no `*`, `?` or `[` matches only itself, as a segment and as a path part. */
  lemma LiteralPartMatchesOnlyItself(lit: string, name: string)
    requires forall i | 0 <= i < |lit| :: lit[i] != '*' && lit[i] != '?' && lit[i] != '['
    ensures MatchSegment(lit, name) <==> name == lit
    ensures MatchPart(lit, name) <==> name == lit
  {
    assert lit + "" == lit;
    LiteralPrefix(lit, "", name);
    if |lit| <= |name| && name[..|lit|] == lit {
      assert name == name[..|lit|] + name[|lit|..];
    }
  }

  /** `*` followed by `ts` matches `name` iff `ts` matches some suffix of `name`. */
  lemma {:induction false} AnyRunMatches(ts: seq<Token>, name: string)
    ensures MatchTokens([AnyRun] + ts, name) <==> exists k | 0 <= k <= |name| :: MatchTokens(ts, name[k..])
    decreases |name|
  {
    var star := [AnyRun] + ts;
    assert star[1..] == ts;
    assert name[0..] == name;
    if name != [] {
      AnyRunMatches(ts, name[1..]);
      if MatchTokens(star, name[1..]) {
        var k :| 0 <= k <= |name[1..]| && MatchTokens(ts, name[1..][k..]);
        assert name[1..][k..] == name[k + 1..];
      }
      if k :| 0 <= k <= |name| && MatchTokens(ts, name[k..]) {
        if k > 0 {
          assert name[1..][k - 1..] == name[k..];
        }
      }
    } else {
      assert name[0..] == name;
      assert MatchTokens(star, name) == MatchTokens(ts, name);
    }
  }

  /** A segment pattern `*rest` matches `name` iff `rest` matches what is left after some prefix of `name`. */
  lemma StarSegment(rest: string, name: string)
    ensures MatchSegment("*" + rest, name) <==> exists k | 0 <= k <= |name| :: MatchSegment(rest, name[k..])
  {
    assert ("*" + rest)[1..] == rest;
    AnyRunMatches(Tokenize(rest), name);
  }

  /** A lone `*` matches every name, the empty one included. */
  lemma StarMatchesEverything(name: string)
    ensures MatchSegment("*", name)
  {
    StarSegment("", name);
    assert MatchSegment("", name[|name|..]);
  }

  /** A segment pattern `?rest` matches `name` iff `name` has a first character and `rest` matches the others. */
  lemma QuestionSegment(rest: string, name: string)
    ensures MatchSegment("?" + rest, name) <==> |name| >= 1 && MatchSegment(rest, name[1..])
  {
    assert ("?" + rest)[1..] == rest;
    var ts := [AnyChar] + Tokenize(rest);
    assert ts[1..] == Tokenize(rest);
  }

  /** Without ranges, a bracket expression's members are exactly its characters. */
  lemma {:induction false} PlainItems(body: string, c: char)
    requires forall i | 0 <= i < |body| :: body[i] != '-'
    ensures InItems(ClassItems(body), c) <==> c in body
    decreases |body|
  {
    if body != [] {
      var items := ClassItems(body);
      var tail := ClassItems(body[1..]);
      assert items == [Single(body[0])] + tail;
      PlainItems(body[1..], c);
      if InItems(items, c) {
        var i :| 0 <= i < |items| && (match items[i] case Single(x) => x == c case Range(lo, hi) => lo <= c <= hi);
        if i > 0 {
          assert items[i] == tail[i - 1];
          assert InItems(tail, c);
        }
      }
      if c in body && c != body[0] {
        assert c in body[1..];
        var i :| 0 <= i < |tail| && (match tail[i] case Single(x) => x == c case Range(lo, hi) => lo <= c <= hi);
        assert items[i + 1] == tail[i];
      }
      if c == body[0] {
        assert items[0] == Single(c);
      }
    }
  }

  /**
   * `[set]rest`: for a set of plain characters (no `]`, no `-`, not starting
   * with `!`), the segment matches iff the first character is in the set and
   * `rest` matches the others.
   */
  lemma SetSegment(set_: string, rest: string, name: string)
    requires |set_| > 0 && set_[0] != '!'
    requires forall i | 0 <= i < |set_| :: set_[i] != ']' && set_[i] != '-'
    ensures MatchSegment("[" + set_ + "]" + rest, name)
        <==> |name| >= 1 && name[0] in set_ && MatchSegment(rest, name[1..])
  {
    var pat := "[" + set_ + "]" + rest;
    var close := |set_| + 1;
    assert pat[1..close] == set_ && pat[close] == ']' && pat[close + 1..] == rest;
    assert forall k | 1 <= k < close :: pat[k] == set_[k - 1];
    assert BracketEnd(pat) == Some(close);
    var ts := Tokenize(pat);
    assert ts == [CharClass(false, ClassItems(set_))] + Tokenize(rest);
    assert ts[1..] == Tokenize(rest);
    if |name| >= 1 {
      PlainItems(set_, name[0]);
    }
  }

  /** `[!set]rest`: as SetSegment, but the first character must NOT be in the set. */
  lemma NegatedSetSegment(set_: string, rest: string, name: string)
    requires |set_| > 0
    requires forall i | 0 <= i < |set_| :: set_[i] != ']' && set_[i] != '-'
    ensures MatchSegment("[!" + set_ + "]" + rest, name)
        <==> |name| >= 1 && name[0] !in set_ && MatchSegment(rest, name[1..])
  {
    var pat := "[!" + set_ + "]" + rest;
    var close := |set_| + 2;
    assert pat[1] == '!' && pat[2..close] == set_ && pat[close] == ']' && pat[close + 1..] == rest;
    assert pat[1..close] == "!" + set_;
    assert forall k | 2 <= k < close :: pat[k] == set_[k - 2];
    assert BracketEnd(pat) == Some(close);
    var ts := Tokenize(pat);
    assert ("!" + set_)[1..] == set_;
    assert ts == [CharClass(true, ClassItems(set_))] + Tokenize(rest);
    assert ts[1..] == Tokenize(rest);
    if |name| >= 1 {
      PlainItems(set_, name[0]);
    }
  }

  /** `lo-hi` at the head of a bracket body is a range: it admits exactly the characters from `lo` to `hi`. */
  lemma RangeItem(lo: char, hi: char, rest: string, c: char)
    ensures InItems(ClassItems([lo, '-', hi] + rest), c) <==> lo <= c <= hi || InItems(ClassItems(rest), c)
  {
    var body := [lo, '-', hi] + rest;
    assert body[1] == '-' && body[3..] == rest;
    var items := ClassItems(body);
    var tail := ClassItems(rest);
    assert items == [Range(lo, hi)] + tail;
    if InItems(items, c) && !(lo <= c <= hi) {
      var i :| 0 <= i < |items| && (match items[i] case Single(x) => x == c case Range(l, h) => l <= c <= h);
      assert i > 0 && items[i] == tail[i - 1];
    }
    if InItems(tail, c) {
      var i :| 0 <= i < |tail| && (match tail[i] case Single(x) => x == c case Range(l, h) => l <= c <= h);
      assert items[i + 1] == tail[i];
    }
    if lo <= c <= hi {
      assert items[0] == Range(lo, hi);
    }
  }

  /** `[lo-hi]rest` matches iff the first character lies between `lo` and `hi` and `rest` matches the others. */
  lemma RangeSegment(lo: char, hi: char, rest: string, name: string)
    requires lo != '!' && hi != ']'
    ensures MatchSegment("[" + [lo, '-', hi] + "]" + rest, name)
        <==> |name| >= 1 && lo <= name[0] <= hi && MatchSegment(rest, name[1..])
  {
    var pat := "[" + [lo, '-', hi] + "]" + rest;
    assert pat[1..4] == [lo, '-', hi] && pat[4] == ']' && pat[5..] == rest;
    assert pat[2] == '-' && pat[3] == hi;
    assert BracketEnd(pat) == Some(4);
    var ts := Tokenize(pat);
    assert ts == [CharClass(false, ClassItems([lo, '-', hi]))] + Tokenize(rest);
    assert ts[1..] == Tokenize(rest);
    if |name| >= 1 {
      RangeItem(lo, hi, [], name[0]);
      assert [lo, '-', hi] + [] == [lo, '-', hi];
    }
  }

  /**
   * A `]` right after `[` or `[!` is a member of the set, not its end:
   * `[]x]` admits `]` and `x`, and `[!]x]` every other character.
   */
  lemma LeadingBracketMember(x: char, rest: string, name: string)
    requires x != ']' && x != '-'
    ensures MatchSegment("[]" + [x] + "]" + rest, name)
        <==> |name| >= 1 && (name[0] == ']' || name[0] == x) && MatchSegment(rest, name[1..])
    ensures MatchSegment("[!]" + [x] + "]" + rest, name)
        <==> |name| >= 1 && name[0] != ']' && name[0] != x && MatchSegment(rest, name[1..])
  {
    var pat := "[]" + [x] + "]" + rest;
    assert pat[1] == ']' && pat[2] == x && pat[3] == ']' && pat[1..3] == "]" + [x] && pat[4..] == rest;
    assert BracketEnd(pat) == Some(3);
    var ts := Tokenize(pat);
    assert ts == [CharClass(false, ClassItems("]" + [x]))] + Tokenize(rest);
    assert ts[1..] == Tokenize(rest);
    var neg := "[!]" + [x] + "]" + rest;
    assert neg[1] == '!' && neg[2] == ']' && neg[3] == x && neg[4] == ']' && neg[5..] == rest;
    assert neg[1..4] == "!]" + [x] && ("!]" + [x])[1..] == "]" + [x];
    assert BracketEnd(neg) == Some(4);
    var nts := Tokenize(neg);
    assert nts == [CharClass(true, ClassItems("]" + [x]))] + Tokenize(rest);
    assert nts[1..] == Tokenize(rest);
    if |name| >= 1 {
      PlainItems("]" + [x], name[0]);
    }
  }

  // ---------------------------------------------------------------------
  // Path-level semantics
  // ---------------------------------------------------------------------

  /**
   * `**` followed by `rest` matches `rel` iff `rest` matches `rel` with zero
   * or more leading parts dropped, none of them the root.
   */
  lemma {:induction false} DoubleStarLevels(rest: seq<string>, rel: Path)
    ensures MatchPath([DoubleStar] + rest, rel)
        <==> exists k | 0 <= k <= |rel| && Root !in rel[..k] :: MatchPath(rest, rel[k..])
    decreases |rel|
  {
    var pattern := [DoubleStar] + rest;
    assert pattern[1..] == rest;
    assert rel[0..] == rel;
    assert rel[..0] == [];
    if rel != [] && rel[0] != Root {
      DoubleStarLevels(rest, rel[1..]);
      if MatchPath(pattern, rel[1..]) {
        var k :| 0 <= k <= |rel[1..]| && Root !in rel[1..][..k] && MatchPath(rest, rel[1..][k..]);
        assert rel[1..][k..] == rel[k + 1..];
        assert rel[..k + 1] == [rel[0]] + rel[1..][..k];
      }
      if k :| 0 <= k <= |rel| && Root !in rel[..k] && MatchPath(rest, rel[k..]) {
        if k > 0 {
          assert rel[1..][k - 1..] == rel[k..];
          assert rel[..k] == [rel[0]] + rel[1..][..k - 1];
        }
      }
    } else {
      assert MatchPath(pattern, rel) == MatchPath(rest, rel);
      forall k | 0 < k <= |rel| ensures Root in rel[..k] {
        assert rel[..k][0] == rel[0];
      }
    }
  }

  /** A pattern without the root part only matches paths without it: a relative glob stays relative. */
  lemma {:induction false} RelativeMatchesStayRelative(pattern: seq<string>, rel: Path)
    requires Root !in pattern
    ensures MatchPath(pattern, rel) ==> Root !in rel
    decreases |pattern| + |rel|
  {
    if pattern != [] && rel != [] && MatchPath(pattern, rel) {
      assert Root !in pattern[1..];
      if pattern[0] == DoubleStar {
        if MatchPath(pattern[1..], rel) {
          RelativeMatchesStayRelative(pattern[1..], rel);
        } else {
          RelativeMatchesStayRelative(pattern, rel[1..]);
          assert rel == [rel[0]] + rel[1..];
        }
      } else {
        assert pattern[0] != Root;
        RelativeMatchesStayRelative(pattern[1..], rel[1..]);
        assert rel == [rel[0]] + rel[1..];
      }
    }
  }

  /**
   * Without `**`, a pattern matches exactly the paths with one part per
   * pattern segment, each part matched by its segment: no wildcard reaches
   * across a separator.
   */
  lemma {:induction false} OneSegmentPerPart(pattern: seq<string>, rel: Path)
    requires forall i | 0 <= i < |pattern| :: pattern[i] != DoubleStar
    ensures MatchPath(pattern, rel)
        <==> |rel| == |pattern| && forall i | 0 <= i < |rel| :: MatchPart(pattern[i], rel[i])
    decreases |pattern|
  {
    if pattern != [] && rel != [] {
      OneSegmentPerPart(pattern[1..], rel[1..]);
      if |rel| == |pattern| && forall i | 0 <= i < |rel| :: MatchPart(pattern[i], rel[i]) {
        assert MatchPart(pattern[0], rel[0]);
        forall i | 0 <= i < |rel[1..]| ensures MatchPart(pattern[1..][i], rel[1..][i]) {
          assert MatchPart(pattern[i + 1], rel[i + 1]);
        }
      }
      if MatchPath(pattern, rel) {
        forall i | 0 <= i < |rel| ensures MatchPart(pattern[i], rel[i]) {
          if i > 0 {
            assert MatchPart(pattern[1..][i - 1], rel[1..][i - 1]);
          }
        }
      }
    }
  }
}
