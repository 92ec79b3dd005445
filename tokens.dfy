/** `parse_token`: cleaning one TF token of a row and splitting off its
    trailing strand sign. */
module Tokens {
  import opened Text
  import opened Records
  import opened Seqs

  /** The characters `strip(',;')` removes from both ends. */
  predicate IsListPunct(c: char) { c == ',' || c == ';' }

  /** `s.replace('\\', '')`: every backslash removed. */
  function RemoveBackslashes(s: string): (r: string)
    ensures forall c :: c in r <==> c in s && c != '\\'
  {
    if s == [] then []
    else if s[0] == '\\' then RemoveBackslashes(s[1..])
    else [s[0]] + RemoveBackslashes(s[1..])
  }

  /** Exactly the backslashes are removed: the result is shorter by their number. */
  lemma {:induction false} RemoveBackslashesCount(s: string)
    ensures |RemoveBackslashes(s)| == |s| - multiset(s)['\\']
  {
    if s != [] {
      RemoveBackslashesCount(s[1..]);
      assert s == [s[0]] + s[1..];
    }
  }

  /** Each character is handled on its own, so the kept characters stay in
      order: removing from a concatenation removes from the two parts, and a
      single character is dropped exactly when it is a backslash. */
  lemma {:induction false} RemoveBackslashesAppend(a: string, b: string)
    ensures RemoveBackslashes(a + b) == RemoveBackslashes(a) + RemoveBackslashes(b)
    ensures forall c :: RemoveBackslashes([c]) == if c == '\\' then [] else [c]
  {
    if a == [] {
      assert a + b == b;
    } else {
      var h := if a[0] == '\\' then [] else [a[0]];
      assert RemoveBackslashes(a + b) == h + RemoveBackslashes(a[1..] + b) by {
        assert (a + b)[0] == a[0];
        assert (a + b)[1..] == a[1..] + b;
      }
      RemoveBackslashesAppend(a[1..], b);
      assert h + (RemoveBackslashes(a[1..]) + RemoveBackslashes(b)) ==
             (h + RemoveBackslashes(a[1..])) + RemoveBackslashes(b);
    }
    forall c ensures RemoveBackslashes([c]) == if c == '\\' then [] else [c] {
      RemoveBackslashesOne(c);
    }
  }

  lemma RemoveBackslashesOne(c: char)
    ensures RemoveBackslashes([c]) == if c == '\\' then [] else [c]
  {
    assert [c][1..] == [];
  }

  /** The cleaned token `tok.strip().replace('\\', '').strip(',;')`. */
  function Clean(tok: string): (t: string)
    ensures t == [] <==> forall c :: c in Strip(tok) ==> c == '\\' || IsListPunct(c)
    ensures '\\' !in t
  {
    var s := Strip(tok);
    var u := RemoveBackslashes(s);
    var t := Trim(u, IsListPunct);
    CleanEmpty(s, u, t);
    t
  }

  lemma CleanEmpty(s: string, u: string, t: string)
    requires u == RemoveBackslashes(s) && t == Trim(u, IsListPunct)
    ensures t == [] <==> forall c :: c in s ==> c == '\\' || IsListPunct(c)
  {
    if t == [] {
      forall c | c in s ensures c == '\\' || IsListPunct(c) {
        if c != '\\' {
          assert c in u;
          var i :| 0 <= i < |u| && u[i] == c;
        }
      }
    } else {
      assert !IsListPunct(t[0]);
      assert t[0] in u;
    }
  }

  /** The sign a trailing character stands for, if any. */
  function SignChar(s: Sign): char
    requires s != Unknown
  {
    if s == Plus then '+' else '-'
  }

  /** `parse_token(tok)`: `None` for a token that is empty once cleaned;
      otherwise the TF name and the sign its last character gives. */
  function ParseToken(tok: string): Option<(string, Sign)> {
    SplitSign(Clean(tok))
  }

  /** Lines 14-18 on the cleaned token `t`. */
  function SplitSign(t: string): Option<(string, Sign)> {
    if t == [] then None
    else if t[|t| - 1] == '+' then Some((Strip(t[..|t| - 1]), Plus))
    else if t[|t| - 1] == '-' then Some((Strip(t[..|t| - 1]), Minus))
    else Some((Strip(t), Unknown))
  }

  /** The sign is `+` or `-` exactly when the token ends in that character,
      and the name is then the rest of the token, stripped; otherwise the
      sign is unknown and the name is the whole token, stripped. */
  lemma SplitSignSpec(t: string)
    requires t != []
    ensures SplitSign(t).Some? && IsTrimmed(SplitSign(t).value.0)
    ensures forall c :: c in SplitSign(t).value.0 ==> c in t
    ensures SplitSign(t).value.1 == Unknown <==> t[|t| - 1] != '+' && t[|t| - 1] != '-'
    ensures SplitSign(t).value.1 != Unknown ==>
              exists p :: t == p + [SignChar(SplitSign(t).value.1)] && SplitSign(t).value.0 == Strip(p)
    ensures SplitSign(t).value.1 == Unknown ==> SplitSign(t).value.0 == Strip(t)
  {
    if t[|t| - 1] == '+' || t[|t| - 1] == '-' {
      var p := t[..|t| - 1];
      assert t == p + [SignChar(SplitSign(t).value.1)];
      assert forall c :: c in p ==> c in t;
    }
  }

  /** A token is dropped exactly when, once stripped, it holds nothing but
      backslashes, commas and semicolons. */
  lemma ParseTokenNone(tok: string)
    ensures ParseToken(tok).None? <==> forall c :: c in Strip(tok) ==> c == '\\' || IsListPunct(c)
  {
    var t := Clean(tok);
    assert ParseToken(tok).None? <==> t == [];
  }

  /** A parsed TF name is stripped and free of backslashes. The sign is
      `+` or `-` exactly when the cleaned token ends in that character, and
      then the name is the rest of the cleaned token, stripped; otherwise
      the sign is unknown and the name is the whole cleaned token, stripped. */
  lemma ParseTokenName(tok: string)
    requires ParseToken(tok).Some?
    ensures IsTrimmed(ParseToken(tok).value.0) && '\\' !in ParseToken(tok).value.0
    ensures var t := Clean(tok);
            t != [] && (ParseToken(tok).value.1 == Unknown <==> t[|t| - 1] != '+' && t[|t| - 1] != '-')
    ensures ParseToken(tok).value.1 != Unknown ==>
              exists p :: Clean(tok) == p + [SignChar(ParseToken(tok).value.1)] && ParseToken(tok).value.0 == Strip(p)
    ensures ParseToken(tok).value.1 == Unknown ==> ParseToken(tok).value.0 == Strip(Clean(tok))
  {
    SplitSignSpec(Clean(tok));
  }

  /** The name of an unsigned token need not be the cleaned token itself:
      removing a backslash can leave whitespace at an end, which the final
      `strip()` removes. */
  lemma UnsignedNameStripped()
    ensures Clean("\\ a") == " a" && ParseToken("\\ a") == Some(("a", Unknown))
  {
    CleanExample();
    StripExample();
  }

  lemma CleanExample()
    ensures Clean("\\ a") == " a"
  {
    StripTrimmed("\\ a");
    assert RemoveBackslashes("\\ a") == " a" by {
      assert "\\ a"[1..] == " a";
      RemoveBackslashesNoop(" a");
    }
    TrimNoop(" a", IsListPunct);
  }

  lemma StripExample()
    ensures Strip(" a") == "a"
  {
    TrimStartExample();
    TrimNoop("a", IsSpace);
    TrimSlice(" a", IsSpace);
  }

  lemma TrimStartExample()
    ensures TrimStart(" a", IsSpace) == "a"
  {
    assert IsSpace(' ') && !IsSpace('a');
    assert " a"[1..] == "a";
  }

  /** How a TF occurrence is written in the source table: the name followed by
      its sign character, or the bare name when the sign is unknown. */
  function RenderToken(tf: string, s: Sign): string {
    if s == Unknown then tf else tf + [SignChar(s)]
  }

  /** A TF name that survives cleaning unchanged: trimmed, without backslashes,
      not starting with `,`/`;`, and, when written without a sign, non-empty
      and not ending with `,`, `;` or a sign character. */
  predicate CleanName(tf: string, s: Sign) {
    && IsTrimmed(tf)
    && '\\' !in tf
    && (tf != [] ==> !IsListPunct(tf[0]))
    && (s == Unknown ==> tf != [] && !IsListPunct(tf[|tf| - 1])
                         && tf[|tf| - 1] != '+' && tf[|tf| - 1] != '-')
  }

  lemma RemoveBackslashesNoop(s: string)
    requires '\\' !in s
    ensures RemoveBackslashes(s) == s
  {
    if s != [] {
      RemoveBackslashesNoop(s[1..]);
      assert [s[0]] + s[1..] == s;
    }
  }

  /** A token already in clean form is left unchanged by cleaning. */
  lemma CleanNoop(tok: string)
    requires tok != [] && IsTrimmed(tok) && '\\' !in tok
    requires !IsListPunct(tok[0]) && !IsListPunct(tok[|tok| - 1])
    ensures Clean(tok) == tok
  {
    StripTrimmed(tok);
    RemoveBackslashesNoop(tok);
    TrimNoop(tok, IsListPunct);
  }

  /** Parsing a written-out token gives back the name and the sign. */
  lemma ParseRenderedToken(tf: string, s: Sign)
    requires CleanName(tf, s)
    ensures ParseToken(RenderToken(tf, s)) == Some((tf, s))
  {
    if s == Unknown {
      ParseUnsigned(tf);
    } else {
      ParseSigned(tf, s);
    }
  }

  lemma ParseUnsigned(tf: string)
    requires CleanName(tf, Unknown)
    ensures ParseToken(tf) == Some((tf, Unknown))
  {
    assert Clean(tf) == tf by { CleanNoop(tf); }
    assert Strip(tf) == tf by { StripTrimmed(tf); }
  }

  lemma ParseSigned(tf: string, s: Sign)
    requires s != Unknown && CleanName(tf, s)
    ensures ParseToken(tf + [SignChar(s)]) == Some((tf, s))
  {
    CleanSigned(tf, s);
    ParseCleanSigned(tf + [SignChar(s)], tf, s);
    StripTrimmed(tf);
  }

  /** A clean token ending in a sign character parses to its stripped prefix and that sign. */
  lemma ParseCleanSigned(tok: string, tf: string, s: Sign)
    requires s != Unknown && tok == tf + [SignChar(s)] && Clean(tok) == tok
    ensures ParseToken(tok) == Some((Strip(tf), s))
  {
    assert tok[..|tok| - 1] == tf;
  }

  lemma CleanSigned(tf: string, s: Sign)
    requires s != Unknown && CleanName(tf, s)
    ensures Clean(tf + [SignChar(s)]) == tf + [SignChar(s)]
  {
    var tok := tf + [SignChar(s)];
    if tf == [] {
      assert tok == [SignChar(s)];
    } else {
      assert tok[0] == tf[0];
    }
    assert '\\' !in tok;
    CleanNoop(tok);
  }
}
