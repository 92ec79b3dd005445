/** Character classes and the string operations of Python's `str` that the
    preprocessor relies on: `strip`, `strip(chars)`, `split(sep)` and the
    whitespace split used as a fallback. Strings are sequences of characters. */
module Text {

  /** The characters for which Python's `str.isspace()` holds; `str.strip()`
      with no argument and the regular-expression class `\s` remove these. */
  predicate IsSpace(c: char) {
    c == ' ' || ('\t' <= c <= '\r') || ('\U{1c}' <= c <= '\U{1f}')
    || c == '\U{85}' || c == '\U{a0}' || c == '\U{1680}'
    || ('\U{2000}' <= c <= '\U{200a}') || c == '\U{2028}' || c == '\U{2029}'
    || c == '\U{202f}' || c == '\U{205f}' || c == '\U{3000}'
  }

  predicate IsTab(c: char) { c == '\t' }

  /** Drops the leading characters satisfying `drop` (Python's `lstrip`). */
  function TrimStart(s: string, drop: char -> bool): (r: string)
    ensures |r| <= |s| && r == s[|s| - |r|..]
    ensures forall i :: 0 <= i < |s| - |r| ==> drop(s[i])
    ensures r != [] ==> !drop(r[0])
  {
    if s != [] && drop(s[0]) then TrimStart(s[1..], drop) else s
  }

  /** Drops the trailing characters satisfying `drop` (Python's `rstrip`). */
  function TrimEnd(s: string, drop: char -> bool): (r: string)
    ensures |r| <= |s| && r == s[..|r|]
    ensures forall i :: |r| <= i < |s| ==> drop(s[i])
    ensures r != [] ==> !drop(r[|r| - 1])
  {
    if s != [] && drop(s[|s| - 1]) then TrimEnd(s[..|s| - 1], drop) else s
  }

  /** Python's `s.strip(chars)`: the longest middle slice of `s` that neither
      starts nor ends with a dropped character. */
  function Trim(s: string, drop: char -> bool): (r: string)
    ensures r != [] ==> !drop(r[0]) && !drop(r[|r| - 1])
    ensures r == [] <==> forall i :: 0 <= i < |s| ==> drop(s[i])
    ensures forall c :: c in r ==> c in s
  {
    var t := TrimStart(s, drop);
    var u := TrimEnd(t, drop);
    assert u == s[|s| - |t|..|s| - |t| + |u|];
    u
  }

  /** What `Trim` removes is a run of dropped characters at each end. */
  lemma TrimSlice(s: string, drop: char -> bool)
    ensures exists a, b :: 0 <= a <= b <= |s| && Trim(s, drop) == s[a..b]
                           && (forall i :: 0 <= i < a ==> drop(s[i]))
                           && (forall i :: b <= i < |s| ==> drop(s[i]))
  {
    var t := TrimStart(s, drop);
    var u := TrimEnd(t, drop);
    var a := |s| - |t|;
    assert u == s[a..a + |u|];
    forall i | a + |u| <= i < |s| ensures drop(s[i]) {
      assert s[i] == t[i - a];
    }
  }

  /** Python's `s.strip()`. */
  function Strip(s: string): (r: string)
    ensures r == [] <==> forall i :: 0 <= i < |s| ==> IsSpace(s[i])
    ensures IsTrimmed(r)
  {
    Trim(s, IsSpace)
  }

  /** No leading or trailing whitespace. */
  predicate IsTrimmed(s: string) {
    s == [] || (!IsSpace(s[0]) && !IsSpace(s[|s| - 1]))
  }

  /** Stripping a string that has no dropped character at either end changes nothing. */
  lemma TrimNoop(s: string, drop: char -> bool)
    requires s == [] || (!drop(s[0]) && !drop(s[|s| - 1]))
    ensures Trim(s, drop) == s
  {
    assert TrimStart(s, drop) == s;
  }

  lemma StripTrimmed(s: string)
    requires IsTrimmed(s)
    ensures Strip(s) == s
  {
    TrimNoop(s, IsSpace);
  }

  /** Python's `s.split(sep)` generalised to a separator class: the pieces
      between consecutive separators, always at least one. */
  function Split(s: string, isSep: char -> bool): (parts: seq<string>)
    ensures |parts| >= 1
    ensures forall k :: 0 <= k < |parts| ==> NoneOf(parts[k], isSep)
  {
    if s == [] then [[]]
    else
      var rest := Split(s[1..], isSep);
      if isSep(s[0]) then [[]] + rest
      else [[s[0]] + rest[0]] + rest[1..]
  }

  predicate NoneOf(s: string, isSep: char -> bool) {
    forall i :: 0 <= i < |s| ==> !isSep(s[i])
  }

  /** `sep.join(parts)` for a single separator character. */
  function Join(parts: seq<string>, sep: char): (s: string)
    requires |parts| >= 1
  {
    if |parts| == 1 then parts[0] else parts[0] + [sep] + Join(parts[1..], sep)
  }

  /** Joining the pieces of a split puts the separators back: `sep.join(s.split(sep)) == s`. */
  lemma {:induction false} JoinSplit(s: string, sep: char, isSep: char -> bool)
    requires forall c :: isSep(c) <==> c == sep
    ensures Join(Split(s, isSep), sep) == s
  {
    if s != [] {
      var rest := Split(s[1..], isSep);
      JoinSplit(s[1..], sep, isSep);
      if isSep(s[0]) {
        assert Split(s, isSep) == [[]] + rest;
        assert ([[]] + rest)[1..] == rest;
      } else {
        var parts := [[s[0]] + rest[0]] + rest[1..];
        assert Split(s, isSep) == parts;
        if |rest| == 1 {
          assert Join(parts, sep) == [s[0]] + rest[0];
        } else {
          assert parts[1..] == rest[1..];
          assert Join(rest, sep) == rest[0] + [sep] + Join(rest[1..], sep);
        }
      }
    }
  }

  /** A piece without separators followed by a separator is split off whole. */
  lemma {:induction false} SplitPiece(p: string, t: string, sep: char, isSep: char -> bool)
    requires forall c :: isSep(c) <==> c == sep
    requires NoneOf(p, isSep)
    ensures Split(p + [sep] + t, isSep) == [p] + Split(t, isSep)
  {
    if p != [] {
      SplitPiece(p[1..], t, sep, isSep);
      var s := p + [sep] + t;
      assert s[1..] == p[1..] + [sep] + t;
      var rest := Split(s[1..], isSep);
      assert rest == [p[1..]] + Split(t, isSep);
      assert rest[1..] == Split(t, isSep);
      assert [p[0]] + p[1..] == p;
    } else {
      assert p + [sep] + t == [sep] + t;
      assert ([sep] + t)[1..] == t;
    }
  }

  lemma {:induction false} SplitNoSep(p: string, isSep: char -> bool)
    requires NoneOf(p, isSep)
    ensures Split(p, isSep) == [p]
  {
    if p != [] {
      SplitNoSep(p[1..], isSep);
      assert [p[0]] + p[1..] == p;
    }
  }

  /** Splitting a join of separator-free pieces gives the pieces back:
      `sep.join(parts).split(sep) == parts`. */
  lemma {:induction false} SplitJoin(parts: seq<string>, sep: char, isSep: char -> bool)
    requires |parts| >= 1
    requires forall c :: isSep(c) <==> c == sep
    requires forall k :: 0 <= k < |parts| ==> NoneOf(parts[k], isSep)
    ensures Split(Join(parts, sep), isSep) == parts
  {
    if |parts| == 1 {
      SplitNoSep(parts[0], isSep);
    } else {
      SplitJoin(parts[1..], sep, isSep);
      SplitPiece(parts[0], Join(parts[1..], sep), sep, isSep);
      assert [parts[0]] + parts[1..] == parts;
    }
  }

  /** The non-empty strings of `ps`, in order. */
  function NonEmpty(ps: seq<string>): (r: seq<string>)
    ensures forall k :: 0 <= k < |r| ==> r[k] != [] && r[k] in ps
    ensures forall p :: p in ps && p != [] ==> p in r
  {
    if ps == [] then []
    else if ps[0] == [] then NonEmpty(ps[1..])
    else [ps[0]] + NonEmpty(ps[1..])
  }

  /** Python's `re.split(r'\s+', line.strip())` on a line that is not blank:
      the maximal runs of non-whitespace characters. */
  function Words(line: string): (ws: seq<string>)
    ensures forall k :: 0 <= k < |ws| ==> ws[k] != [] && NoneOf(ws[k], IsSpace)
  {
    var parts := Split(Strip(line), IsSpace);
    var r := NonEmpty(parts);
    assert forall k :: 0 <= k < |r| ==> NoneOf(r[k], IsSpace) by {
      forall k | 0 <= k < |r| ensures NoneOf(r[k], IsSpace) {
        var j :| 0 <= j < |parts| && parts[j] == r[k];
      }
    }
    r
  }

  /** Python's `re.sub(r'\s+', '', s)`: every whitespace character removed. */
  function RemoveSpace(s: string): (r: string)
    ensures NoneOf(r, IsSpace)
    ensures forall i :: 0 <= i < |s| && !IsSpace(s[i]) ==> s[i] in r
    ensures forall c :: c in r ==> c in s
  {
    if s == [] then []
    else if IsSpace(s[0]) then RemoveSpace(s[1..])
    else [s[0]] + RemoveSpace(s[1..])
  }
}
