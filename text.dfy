/** ASCII models of the Python `str` operations the routers rely on:
    `strip`, `split(sep)`, `", ".join`, `startswith`, `replace`, `lower`,
    `title` and `ljust`. Non-ASCII characters are left as they are by the
    case mappings and are never whitespace. */
module Text {
  import opened Common

  /** `str.isspace` restricted to ASCII: space, \t \n \v \f \r and the
      four separators \x1c-\x1f. */
  predicate IsSpace(c: char) {
    c == ' ' || 9 <= c as int <= 13 || 0x1c <= c as int <= 0x1f
  }

  predicate IsUpper(c: char) { 'A' <= c <= 'Z' }
  predicate IsLower(c: char) { 'a' <= c <= 'z' }
  /** The cased characters of ASCII. */
  predicate IsLetter(c: char) { IsUpper(c) || IsLower(c) }

  function LowerChar(c: char): (d: char)
    ensures IsLetter(d) == IsLetter(c) && !IsUpper(d)
    ensures IsLetter(c) ==> UpperChar(d) == UpperChar(c)
    ensures !IsUpper(c) ==> d == c
  {
    if IsUpper(c) then (c as int + 32) as char else c
  }

  function UpperChar(c: char): (d: char)
    ensures IsLetter(d) == IsLetter(c) && !IsLower(d)
    ensures !IsLower(c) ==> d == c
  {
    if IsLower(c) then (c as int - 32) as char else c
  }

  /** `s.lower()`. */
  function Lower(s: string): (r: string)
    ensures |r| == |s|
    ensures forall i :: 0 <= i < |s| ==> r[i] == LowerChar(s[i])
  {
    seq(|s|, i requires 0 <= i < |s| => LowerChar(s[i]))
  }

  /** True when position `i` of `s` starts a word in the sense of
      `str.title`: the character before it is not a cased character. */
  predicate StartsWord(s: string, i: nat)
    requires i < |s|
  {
    i == 0 || !IsLetter(s[i - 1])
  }

  /** `s.title()`: the first letter of every word upper case, every other
      letter lower case, everything else unchanged. */
  function Title(s: string): (r: string)
    ensures |r| == |s|
    ensures forall i :: 0 <= i < |s| && !IsLetter(s[i]) ==> r[i] == s[i]
    ensures forall i :: 0 <= i < |s| && IsLetter(s[i]) ==> IsLetter(r[i]) && (IsUpper(r[i]) <==> StartsWord(s, i))
  {
    seq(|s|, i requires 0 <= i < |s| => if StartsWord(s, i) then UpperChar(s[i]) else LowerChar(s[i]))
  }

  /** Lower-casing forgets which case a character had. */
  lemma LowerOfCase(c: char)
    ensures LowerChar(UpperChar(c)) == LowerChar(c) && LowerChar(LowerChar(c)) == LowerChar(c)
  {
  }

  /** Title-casing changes case only. */
  lemma TitleLower(s: string)
    ensures Lower(Title(s)) == Lower(s)
  {
    var t := Title(s);
    forall i | 0 <= i < |s| ensures Lower(t)[i] == Lower(s)[i] {
      LowerOfCase(s[i]);
    }
  }

  lemma CaseKeepsSpace(c: char)
    ensures IsSpace(UpperChar(c)) == IsSpace(c) && IsSpace(LowerChar(c)) == IsSpace(c)
  {
  }

  /** Title-casing keeps text free of surrounding whitespace. */
  lemma TitleKeepsStripped(s: string)
    requires IsStripped(s)
    ensures IsStripped(Title(s))
  {
    if s != "" {
      var m := |s| - 1;
      CaseKeepsSpace(s[0]);
      CaseKeepsSpace(s[m]);
    }
  }

  /** `s.startswith(p)`. */
  predicate StartsWith(s: string, p: string) {
    |p| <= |s| && s[..|p|] == p
  }

  /** `p in s` for a non-empty `p`. */
  predicate Occurs(s: string, p: string)
    requires p != ""
    decreases |s|
  {
    StartsWith(s, p) || (s != "" && Occurs(s[1..], p))
  }

  /** `s.replace(pat, sub)`: every non-overlapping occurrence of `pat`,
      found scanning left to right, is replaced by `sub`. */
  function Replace(s: string, pat: string, sub: string): (r: string)
    requires pat != ""
    ensures !Occurs(s, pat) ==> r == s
    decreases |s|
  {
    if StartsWith(s, pat) then sub + Replace(s[|pat|..], pat, sub)
    else if s == "" then ""
    else [s[0]] + Replace(s[1..], pat, sub)
  }

  /** Removing every occurrence of a tag from text that starts with the
      tag removes the leading tag and every occurrence in the rest; when
      the rest holds none, the text after the tag is left. */
  lemma ReplaceLeadingTag(tag: string, rest: string)
    requires tag != ""
    ensures Replace(tag + rest, tag, "") == Replace(rest, tag, "")
    ensures !Occurs(rest, tag) ==> Replace(tag + rest, tag, "") == rest
  {
    var s := tag + rest;
    assert s[..|tag|] == tag;
    assert s[|tag|..] == rest;
  }

  /** The characters stripped from the front by `strip`. */
  function TrimStart(s: string): (r: string)
    ensures |r| <= |s| && r == s[|s| - |r|..]
    ensures forall i :: 0 <= i < |s| - |r| ==> IsSpace(s[i])
    ensures r == "" || !IsSpace(r[0])
  {
    if s != "" && IsSpace(s[0]) then TrimStart(s[1..]) else s
  }

  function TrimEnd(s: string): (r: string)
    ensures |r| <= |s| && r == s[..|r|]
    ensures forall i :: |r| <= i < |s| ==> IsSpace(s[i])
    ensures r == "" || !IsSpace(r[|r| - 1])
  {
    if s != "" && IsSpace(s[|s| - 1]) then TrimEnd(s[..|s| - 1]) else s
  }

  /** No whitespace at either end. */
  predicate IsStripped(s: string) {
    s == "" || (!IsSpace(s[0]) && !IsSpace(s[|s| - 1]))
  }

  /** Number of whitespace characters `strip` removes from the front. */
  function LeadingSpaces(s: string): (n: nat)
    ensures n <= |s|
  {
    |s| - |TrimStart(s)|
  }

  /** `s.strip()`: `s` with the whitespace at both ends removed. */
  function Strip(s: string): (r: string)
    ensures IsStripped(r)
  {
    TrimEnd(TrimStart(s))
  }

  /** `strip` keeps a middle part of `s` and removes only whitespace
      around it. */
  lemma StripSpec(s: string)
    ensures var r, k := Strip(s), LeadingSpaces(s);
      && k + |r| <= |s| && r == s[k..k + |r|]
      && (forall i :: 0 <= i < k ==> IsSpace(s[i]))
      && (forall i :: k + |r| <= i < |s| ==> IsSpace(s[i]))
  {
  }

  lemma StripOfStripped(s: string)
    requires IsStripped(s)
    ensures Strip(s) == s
  {
  }

  /** Leading whitespace does not survive `strip`. */
  lemma StripLeadingSpace(c: char, s: string)
    requires IsSpace(c)
    ensures Strip([c] + s) == Strip(s)
  {
    assert ([c] + s)[1..] == s;
  }

  /** Index of the first `c` in `s`, or `|s|` when there is none. */
  function Find(s: string, c: char): (k: nat)
    ensures k <= |s|
    ensures forall i :: 0 <= i < k ==> s[i] != c
    ensures k < |s| ==> s[k] == c
  {
    if s == "" then 0 else if s[0] == c then 0 else 1 + Find(s[1..], c)
  }

  /** Text that starts with a non-space keeps all of itself when some
      text is put in front of it and the front is trimmed. */
  lemma {:induction false} TrimStartAppend(a: string, rest: string)
    requires rest != "" && !IsSpace(rest[0])
    ensures TrimStart(a + rest) == TrimStart(a) + rest
  {
    if a == "" {
      assert a + rest == rest;
    } else {
      assert (a + rest)[0] == a[0];
      assert (a + rest)[1..] == a[1..] + rest;
      if IsSpace(a[0]) {
        TrimStartAppend(a[1..], rest);
      }
    }
  }

  /** Trimming the end of text whose tail starts with a non-space only
      touches that tail. */
  lemma {:induction false} TrimEndPrepend(x: string, rest: string)
    requires rest != "" && !IsSpace(rest[0])
    ensures TrimEnd(x + rest) == x + TrimEnd(rest)
    decreases |rest|
  {
    var s := x + rest;
    assert s[|s| - 1] == rest[|rest| - 1];
    if IsSpace(rest[|rest| - 1]) {
      assert s[..|s| - 1] == x + rest[..|rest| - 1];
      TrimEndPrepend(x, rest[..|rest| - 1]);
    }
  }

  /** The first `c` sits wherever `c` occurs with none before it. */
  lemma FindAt(s: string, c: char, j: nat)
    requires j < |s| && s[j] == c
    requires forall i :: 0 <= i < j ==> s[i] != c
    ensures Find(s, c) == j
  {
  }

  /** Trimming the front of text that lacks `c` leaves text that lacks it. */
  lemma {:induction false} TrimStartAvoids(a: string, c: char)
    requires c !in a
    ensures c !in TrimStart(a)
  {
    if a != "" && IsSpace(a[0]) {
      assert forall i :: 0 <= i < |a| - 1 ==> a[1..][i] == a[i + 1];
      TrimStartAvoids(a[1..], c);
    }
  }

  /** `strip` removes only whitespace, so a non-space character is in
      the stripped text exactly when it is in the text. */
  lemma StripKeeps(s: string, c: char)
    requires !IsSpace(c)
    ensures c in Strip(s) <==> c in s
  {
    if c in s {
      StripThenCut(s, c);
    } else {
      TrimStartAvoids(s, c);
      var x := TrimStart(s);
      assert forall i :: 0 <= i < |Strip(s)| ==> Strip(s)[i] == x[i];
    }
  }

  /** Trimming the front first does not change `strip`. */
  lemma StripOfTrimStart(a: string)
    ensures Strip(TrimStart(a)) == Strip(a)
  {
    var x := TrimStart(a);
    assert x == "" || !IsSpace(x[0]);
    assert TrimStart(x) == x;
  }

  /** In `x + y`, where only `y` holds `sep` and starts with it, the first
      `sep` is right after `x`. */
  lemma CutAtJoin(x: string, y: string, sep: char)
    requires sep !in x && y != "" && y[0] == sep
    ensures Find(x + y, sep) == |x| && (x + y)[..|x|] == x
  {
    var t := x + y;
    assert forall i :: 0 <= i < |x| ==> t[i] == x[i];
    FindAt(t, sep, |x|);
  }

  /** The stripped text, split at the first non-space `sep` of `s`: the
      front trimmed of what lies before `sep`, then the rest with its end
      trimmed. */
  lemma StripAround(s: string, sep: char)
    requires !IsSpace(sep) && sep in s
    ensures var a := s[..Find(s, sep)];
      && Strip(s) == TrimStart(a) + TrimEnd(s[Find(s, sep)..])
      && TrimEnd(s[Find(s, sep)..]) != "" && TrimEnd(s[Find(s, sep)..])[0] == sep
  {
    var k := Find(s, sep);
    var a, rest := s[..k], s[k..];
    assert s == a + rest;
    TrimStartAppend(a, rest);
    TrimEndPrepend(TrimStart(a), rest);
  }

  /** Cutting `s.strip()` at its first `sep` and stripping again gives
      the stripped text before the first `sep` of `s`, for a separator
      that is not whitespace. */
  lemma StripThenCut(s: string, sep: char)
    requires !IsSpace(sep) && sep in s
    ensures sep in Strip(s)
    ensures Strip(Strip(s)[..Find(Strip(s), sep)]) == Strip(s[..Find(s, sep)])
  {
    var k := Find(s, sep);
    var a := s[..k];
    StripAround(s, sep);
    var x, y := TrimStart(a), TrimEnd(s[k..]);
    TrimStartAvoids(a, sep);
    CutAtJoin(x, y, sep);
    assert Strip(s)[..Find(Strip(s), sep)] == x;
    StripOfTrimStart(a);
  }

  /** `s.split(sep)` for a one-character separator: the pieces between
      separators, never fewer than one (`"".split(",") == [""]`). */
  function Split(s: string, sep: char): (parts: seq<string>)
    ensures |parts| >= 1
    ensures forall i :: 0 <= i < |parts| ==> sep !in parts[i]
    decreases |s|
  {
    var k := Find(s, sep);
    if k == |s| then [s] else [s[..k]] + Split(s[k + 1..], sep)
  }

  /** A character other than the separator glued to the front of the text
      lands at the front of the first piece. */
  lemma {:induction false} SplitCons(c: char, s: string, sep: char)
    requires c != sep
    ensures Split([c] + s, sep) == [[c] + Split(s, sep)[0]] + Split(s, sep)[1..]
  {
    var t := [c] + s;
    assert t[1..] == s;
    var k := Find(s, sep);
    assert Find(t, sep) == k + 1;
    if k < |s| {
      assert t[..k + 1] == [c] + s[..k];
      assert t[k + 2..] == s[k + 1..];
    }
  }

  /** Text without the separator is a single piece. */
  lemma SplitNoSep(s: string, sep: char)
    requires sep !in s
    ensures Split(s, sep) == [s]
  {
  }

  /** Text up to the first separator is the first piece. */
  lemma SplitAt(p: string, rest: string, sep: char)
    requires sep !in p
    ensures Split(p + [sep] + rest, sep) == [p] + Split(rest, sep)
  {
    var t := p + [sep] + rest;
    assert forall i :: 0 <= i < |p| ==> t[i] == p[i] && p[i] in p;
    assert t[|p|] == sep;
    assert Find(t, sep) == |p|;
    assert t[..|p|] == p;
    assert t[|p| + 1..] == rest;
  }

  /** `sep.join(parts)`. */
  function Join(parts: seq<string>, sep: string): (r: string)
    ensures parts == [] ==> r == ""
    ensures |parts| == 1 ==> r == parts[0]
    ensures parts != [] ==> |r| >= |parts[0]|
    ensures forall c :: c in r && c !in sep ==> exists i :: 0 <= i < |parts| && c in parts[i]
  {
    if |parts| == 0 then ""
    else if |parts| == 1 then parts[0]
    else parts[0] + sep + Join(parts[1..], sep)
  }

  /** Splitting `p, tail` gives `p` and then the pieces of `tail`, the
      first of them behind one more space. */
  lemma SplitJoinPieces(p: string, tail: string)
    requires ',' !in p
    ensures Split(p + ", " + tail, ',') == [p] + ([[' '] + Split(tail, ',')[0]] + Split(tail, ',')[1..])
  {
    assert p + ", " + tail == p + [','] + ([' '] + tail);
    SplitAt(p, [' '] + tail, ',');
    SplitCons(' ', tail, ',');
  }

  /** One step of the round trip below: if the pieces after the first
      are the first piece of `st` behind a space and then the rest of `st`,
      and `st` stripped gives `rest`, then those pieces stripped give
      `rest`. */
  lemma StripPiecesStep(rest: seq<string>, st: seq<string>, pieces: seq<string>)
    requires st != [] && |st| == |rest| && |pieces| == |st| + 1
    requires forall i :: 0 <= i < |st| ==> Strip(st[i]) == rest[i]
    requires pieces[1] == [' '] + st[0]
    requires forall i :: 2 <= i < |pieces| ==> pieces[i] == st[i - 1]
    ensures forall i :: 1 <= i < |pieces| ==> Strip(pieces[i]) == rest[i - 1]
  {
    forall i | 1 <= i < |pieces| ensures Strip(pieces[i]) == rest[i - 1] {
      var x := pieces[i];
      if i == 1 {
        assert x == [' '] + st[0];
        StripLeadingSpace(' ', st[0]);
        assert Strip(x) == Strip(st[0]);
      } else {
        assert x == st[i - 1];
        assert Strip(st[i - 1]) == rest[i - 1];
      }
    }
  }

  /** Joining with ", " and splitting on "," gives back as many pieces as
      there were parts, and each piece stripped is its part, when no part
      holds a comma or surrounding whitespace. */
  lemma {:induction false} JoinSplitRoundTrip(parts: seq<string>)
    requires parts != []
    requires forall i :: 0 <= i < |parts| ==> ',' !in parts[i] && IsStripped(parts[i])
    ensures |Split(Join(parts, ", "), ',')| == |parts|
    ensures forall i :: 0 <= i < |parts| ==> Strip(Split(Join(parts, ", "), ',')[i]) == parts[i]
  {
    if |parts| == 1 {
      SplitNoSep(parts[0], ',');
      StripOfStripped(parts[0]);
    } else {
      var p, rest := parts[0], parts[1..];
      var tail := Join(rest, ", ");
      assert Join(parts, ", ") == p + ", " + tail;
      JoinSplitRoundTrip(rest);
      var pieces := Split(Join(parts, ", "), ',');
      SplitJoinPieces(p, tail);
      ReplaceHeadShape(p, [' '] + Split(tail, ',')[0], Split(tail, ','), pieces);
      StripPiecesStep(rest, Split(tail, ','), pieces);
      StripOfStripped(p);
      forall i | 1 <= i < |parts| ensures parts[i] == rest[i - 1] { }
    }
  }

  /** `s.ljust(width, fill)`: `s` followed by as many `fill` characters as
      it takes to reach `width`. */
  function LJust(s: string, width: nat, fill: char): (r: string)
    ensures |r| == if |s| >= width then |s| else width
    ensures r[..|s|] == s
    ensures forall i :: |s| <= i < |r| ==> r[i] == fill
    decreases width - |s|
  {
    if |s| >= width then s else LJust(s + [fill], width, fill)
  }
}
