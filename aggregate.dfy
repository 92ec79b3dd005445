/** The counting pass over the rows: signed counts per (tissue, TF) key, rows
    per tissue and occurrences per TF. */
module Aggregate {
  import opened Seqs
  import opened Text
  import opened Records
  import opened Tokens
  import opened Rows
  import opened Counters

  /** One counted TF occurrence: the row's tissue, the cleaned TF name and its sign. */
  datatype Obs = Obs(tissue: string, tf: string, sign: Sign)

  /** `defaultdict` of sign counters keyed by (tissue, TF). */
  type Stats = map<Key, Counts>

  /** A token of a row of `tissue`: parsed, then with all whitespace removed
      from the name (`re.sub(r'\s+', '', tf)`). */
  function TokenObs(tissue: string, tok: string): Option<Obs> {
    match ParseToken(tok)
    case None => None
    case Some(p) => Some(Obs(tissue, RemoveSpace(p.0), p.1))
  }

  /** A token yields an occurrence exactly when it parses; the occurrence
      carries the row's tissue, the parsed sign and a TF name without
      whitespace or backslashes. */
  lemma TokenObsSpec(tissue: string, tok: string)
    ensures TokenObs(tissue, tok).None? <==> ParseToken(tok).None?
    ensures TokenObs(tissue, tok).Some? ==>
              && TokenObs(tissue, tok).value.tissue == tissue
              && TokenObs(tissue, tok).value.sign == ParseToken(tok).value.1
              && NoneOf(TokenObs(tissue, tok).value.tf, IsSpace)
              && '\\' !in TokenObs(tissue, tok).value.tf
  {
    if ParseToken(tok).Some? {
      ParseTokenName(tok);
    }
  }

  function TokenReader(tissue: string): string -> Option<Obs> {
    tok => TokenObs(tissue, tok)
  }

  /** The occurrences one row contributes, in token order. */
  function RowObs(row: Row): seq<Obs> {
    FilterMap(row.tokens, TokenReader(row.tissue))
  }

  /** The occurrences of all rows, in input order. */
  function Observations(rows: seq<Row>): seq<Obs> {
    if rows == [] then [] else Observations(rows[..|rows| - 1]) + RowObs(rows[|rows| - 1])
  }

  function TissuesOf(rows: seq<Row>): (ts: seq<string>)
    ensures |ts| == |rows| && forall i :: 0 <= i < |rows| ==> ts[i] == rows[i].tissue
  {
    if rows == [] then [] else TissuesOf(rows[..|rows| - 1]) + [rows[|rows| - 1].tissue]
  }

  function TfsOf(obs: seq<Obs>): (tfs: seq<string>)
    ensures |tfs| == |obs| && forall i :: 0 <= i < |obs| ==> tfs[i] == obs[i].tf
  {
    if obs == [] then [] else TfsOf(obs[..|obs| - 1]) + [obs[|obs| - 1].tf]
  }

  /** `stats.get(key, {'+': 0, '-': 0, '0': 0, 'total': 0})`. */
  function Lookup(stats: Stats, k: Key): Counts {
    if k in stats then stats[k] else Zero
  }

  /** The statistics after counting `obs` one after the other. */
  function Tally(obs: seq<Obs>): Stats {
    if obs == [] then map[]
    else
      var m := Tally(obs[..|obs| - 1]);
      var o := obs[|obs| - 1];
      m[(o.tissue, o.tf) := Bump(Lookup(m, (o.tissue, o.tf)), o.sign)]
  }

  /** How many times `x` occurs in `obs`. */
  function Occurrences(obs: seq<Obs>, x: Obs): nat {
    if obs == [] then 0
    else Occurrences(obs[..|obs| - 1], x) + (if obs[|obs| - 1] == x then 1 else 0)
  }

  /** The counts an independent reading of `obs` gives for key `k`: each
      bucket is the number of occurrences of `k` with that sign. */
  function CountsIn(obs: seq<Obs>, k: Key): (c: Counts)
    ensures Balanced(c)
  {
    var p := Occurrences(obs, Obs(k.0, k.1, Plus));
    var n := Occurrences(obs, Obs(k.0, k.1, Minus));
    var u := Occurrences(obs, Obs(k.0, k.1, Unknown));
    Counts(p, n, u, p + n + u)
  }

  /** Each bucket of every key counts exactly the occurrences of that key with
      that sign, `total` counts all of them, and a key is present exactly when
      it occurred. */
  lemma TallySpec(obs: seq<Obs>)
    ensures forall k :: Lookup(Tally(obs), k) == CountsIn(obs, k)
    ensures forall k :: k in Tally(obs) <==> CountsIn(obs, k).total > 0
  {
    forall k ensures Lookup(Tally(obs), k) == CountsIn(obs, k) {
      TallyAt(obs, k);
    }
    forall k ensures k in Tally(obs) <==> CountsIn(obs, k).total > 0 {
      TallyHas(obs, k);
    }
  }

  lemma {:induction false} TallyAt(obs: seq<Obs>, k: Key)
    ensures Lookup(Tally(obs), k) == CountsIn(obs, k)
  {
    if obs != [] {
      var init := obs[..|obs| - 1];
      var o := obs[|obs| - 1];
      TallyAt(init, k);
      if (o.tissue, o.tf) == k {
        LastCounts(obs, k);
      } else {
        assert Lookup(Tally(obs), k) == Lookup(Tally(init), k);
        OtherCounts(obs, k);
      }
    }
  }

  lemma {:induction false} TallyHas(obs: seq<Obs>, k: Key)
    ensures k in Tally(obs) <==> CountsIn(obs, k).total > 0
  {
    if obs != [] {
      var o := obs[|obs| - 1];
      TallyHas(obs[..|obs| - 1], k);
      if (o.tissue, o.tf) == k {
        LastCounts(obs, k);
      } else {
        OtherCounts(obs, k);
      }
    }
  }

  /** The last occurrence, when it has key `k`, adds one to its sign's bucket. */
  lemma LastCounts(obs: seq<Obs>, k: Key)
    requires obs != [] && (obs[|obs| - 1].tissue, obs[|obs| - 1].tf) == k
    ensures CountsIn(obs, k) == Bump(CountsIn(obs[..|obs| - 1], k), obs[|obs| - 1].sign)
  {
    var o := obs[|obs| - 1];
    assert o == Obs(k.0, k.1, o.sign);
  }

  /** An occurrence of another key leaves the counts of `k` alone. */
  lemma OtherCounts(obs: seq<Obs>, k: Key)
    requires obs != [] && (obs[|obs| - 1].tissue, obs[|obs| - 1].tf) != k
    ensures CountsIn(obs, k) == CountsIn(obs[..|obs| - 1], k)
  {
    var o := obs[|obs| - 1];
    assert o != Obs(k.0, k.1, Plus) && o != Obs(k.0, k.1, Minus) && o != Obs(k.0, k.1, Unknown);
  }

  /** After counting, every entry satisfies `total = + + - + 0` and records
      at least one occurrence. */
  lemma TallyBalanced(obs: seq<Obs>)
    ensures forall k :: k in Tally(obs) ==> Balanced(Tally(obs)[k]) && Tally(obs)[k].total > 0
  {
    forall k | k in Tally(obs) ensures Balanced(Tally(obs)[k]) && Tally(obs)[k].total > 0 {
      TallyAt(obs, k);
      TallyHas(obs, k);
    }
  }

  /** Counting one more occurrence changes only its own key, and only by one
      in its sign's bucket and in `total`. */
  lemma TallySnoc(obs: seq<Obs>, o: Obs)
    ensures Tally(obs + [o]) == Tally(obs)[(o.tissue, o.tf) := Bump(Lookup(Tally(obs), (o.tissue, o.tf)), o.sign)]
    ensures TfsOf(obs + [o]) == TfsOf(obs) + [o.tf]
  {
    assert (obs + [o])[..|obs|] == obs;
  }

  /** One more occurrence `o` moves only its own entries: its (tissue, TF)
      key gains one in `total` and one in the bucket of its sign, the other
      two buckets and every other key keep their counts, and its TF gains one
      occurrence while every other TF keeps its count. */
  lemma OccurrenceCounted(obs: seq<Obs>, o: Obs)
    ensures forall k :: k != (o.tissue, o.tf) ==> Lookup(Tally(obs + [o]), k) == Lookup(Tally(obs), k)
    ensures var before, after := Lookup(Tally(obs), (o.tissue, o.tf)), Lookup(Tally(obs + [o]), (o.tissue, o.tf));
            && after.total == before.total + 1
            && after.plus == before.plus + (if o.sign == Plus then 1 else 0)
            && after.minus == before.minus + (if o.sign == Minus then 1 else 0)
            && after.unknown == before.unknown + (if o.sign == Unknown then 1 else 0)
    ensures (o.tissue, o.tf) in Tally(obs + [o])
    ensures Get(CounterOf(TfsOf(obs + [o])), o.tf) == Get(CounterOf(TfsOf(obs)), o.tf) + 1
    ensures forall tf :: tf != o.tf ==> Get(CounterOf(TfsOf(obs + [o])), tf) == Get(CounterOf(TfsOf(obs)), tf)
  {
    TallySnoc(obs, o);
    CounterOfSnoc(TfsOf(obs), o.tf);
  }

  /** Reading one more token of a row. */
  lemma ReadStep(tokens: seq<string>, j: nat, tissue: string)
    requires j < |tokens|
    ensures FilterMap(tokens[..j + 1], TokenReader(tissue)) ==
            FilterMap(tokens[..j], TokenReader(tissue)) + ToSeq(TokenObs(tissue, tokens[j]))
  {
    assert tokens[..j + 1][..j] == tokens[..j];
  }

  /** Reading one more row. */
  lemma RowStep(rows: seq<Row>, i: nat)
    requires i < |rows|
    ensures Observations(rows[..i + 1]) == Observations(rows[..i]) + RowObs(rows[i])
    ensures TissuesOf(rows[..i + 1]) == TissuesOf(rows[..i]) + [rows[i].tissue]
  {
    assert rows[..i + 1][..i] == rows[..i];
  }

  /** The counting loops: every kept row counts once for its tissue, and every
      token that parses counts once in its key's sign bucket and once for its TF. */
  method Aggregate(rows: seq<Row>) returns (stats: Stats, tissueTotals: Counter, tfTotals: Counter)
    ensures stats == Tally(Observations(rows))
    ensures tissueTotals == CounterOf(TissuesOf(rows))
    ensures tfTotals == CounterOf(TfsOf(Observations(rows)))
  {
    stats := map[];
    tissueTotals := EmptyCounter();
    tfTotals := EmptyCounter();
    for i := 0 to |rows|
      invariant stats == Tally(Observations(rows[..i]))
      invariant tissueTotals == CounterOf(TissuesOf(rows[..i]))
      invariant tfTotals == CounterOf(TfsOf(Observations(rows[..i])))
    {
      RowStep(rows, i);
      tissueTotals := Inc(tissueTotals, rows[i].tissue);
      stats, tfTotals := CountTokens(stats, tfTotals, Observations(rows[..i]), rows[i].tissue, rows[i].tokens);
    }
    assert rows[..|rows|] == rows;
  }

  /** The inner loop over the tokens of a row of `tissue`, continuing the
      counts of the occurrences `done` read before them. */
  method CountTokens(stats0: Stats, tfTotals0: Counter, ghost done: seq<Obs>, tissue: string, tokens: seq<string>)
    returns (stats: Stats, tfTotals: Counter)
    requires stats0 == Tally(done) && tfTotals0 == CounterOf(TfsOf(done))
    ensures stats == Tally(done + FilterMap(tokens, TokenReader(tissue)))
    ensures tfTotals == CounterOf(TfsOf(done + FilterMap(tokens, TokenReader(tissue))))
  {
    stats, tfTotals := stats0, tfTotals0;
    ghost var part: seq<Obs> := [];
    assert done + part == done;
    for j := 0 to |tokens|
      invariant part == FilterMap(tokens[..j], TokenReader(tissue))
      invariant stats == Tally(done + part) && tfTotals == CounterOf(TfsOf(done + part))
    {
      ghost var next := ToSeq(TokenObs(tissue, tokens[j]));
      ReadStep(tokens, j, tissue);
      AppendAssoc(done, part, next);
      stats, tfTotals := CountToken(stats, tfTotals, done + part, tissue, tokens[j]);
      part := part + next;
    }
    assert tokens[..|tokens|] == tokens;
  }

  /** One token of a row of `tissue`: `parse_token`, whitespace removal, then
      one more in the key's sign bucket and in `total`, and one more for the
      TF; a token that does not parse changes nothing. */
  method CountToken(stats0: Stats, tfTotals0: Counter, ghost before: seq<Obs>, tissue: string, tok: string)
    returns (stats: Stats, tfTotals: Counter)
    requires stats0 == Tally(before) && tfTotals0 == CounterOf(TfsOf(before))
    ensures stats == Tally(before + ToSeq(TokenObs(tissue, tok)))
    ensures tfTotals == CounterOf(TfsOf(before + ToSeq(TokenObs(tissue, tok))))
  {
    var parsed := ParseToken(tok);
    if parsed.None? {
      assert before + ToSeq(TokenObs(tissue, tok)) == before by {
        TokenObsOf(tissue, tok);
      }
      return stats0, tfTotals0;
    }
    var tf := RemoveSpace(parsed.value.0);
    var key := (tissue, tf);
    ghost var o := Obs(tissue, tf, parsed.value.1);
    stats := stats0[key := Bump(Lookup(stats0, key), parsed.value.1)];
    tfTotals := Inc(tfTotals0, tf);
    assert before + ToSeq(TokenObs(tissue, tok)) == before + [o] by {
      TokenObsOf(tissue, tok);
    }
    assert stats == Tally(before + [o]) && tfTotals == CounterOf(TfsOf(before + [o])) by {
      TallySnoc(before, o);
      CounterOfSnoc(TfsOf(before), tf);
    }
  }

  lemma TokenObsOf(tissue: string, tok: string)
    ensures ParseToken(tok).None? ==> ToSeq(TokenObs(tissue, tok)) == []
    ensures ParseToken(tok).Some? ==>
              ToSeq(TokenObs(tissue, tok)) == [Obs(tissue, RemoveSpace(ParseToken(tok).value.0), ParseToken(tok).value.1)]
  {
  }

  /** Every kept row adds exactly one to its tissue's count, however many
      tokens it holds. */
  lemma TissueCounts(rows: seq<Row>, t: string)
    ensures Get(CounterOf(TissuesOf(rows)), t) == multiset(TissuesOf(rows))[t]
    ensures t in CounterOf(TissuesOf(rows)).order <==> exists i :: 0 <= i < |rows| && rows[i].tissue == t
  {
    CounterOfSpec(TissuesOf(rows));
    CounterOfKeys(TissuesOf(rows));
    TissuesOfHas(rows, t);
  }

  /** Every TF is counted once per occurrence, whatever its tissue. */
  lemma TfCounts(obs: seq<Obs>, tf: string)
    ensures Get(CounterOf(TfsOf(obs)), tf) == multiset(TfsOf(obs))[tf]
    ensures tf in CounterOf(TfsOf(obs)).order <==> exists i :: 0 <= i < |obs| && obs[i].tf == tf
  {
    CounterOfSpec(TfsOf(obs));
    CounterOfKeys(TfsOf(obs));
    TfsOfHas(obs, tf);
  }

  lemma TissuesOfHas(rows: seq<Row>, t: string)
    ensures t in TissuesOf(rows) <==> exists i :: 0 <= i < |rows| && rows[i].tissue == t
  {
    if t in TissuesOf(rows) {
      var i :| 0 <= i < |rows| && TissuesOf(rows)[i] == t;
    }
  }

  lemma TfsOfHas(obs: seq<Obs>, tf: string)
    ensures tf in TfsOf(obs) <==> exists i :: 0 <= i < |obs| && obs[i].tf == tf
  {
    if tf in TfsOf(obs) {
      var i :| 0 <= i < |obs| && TfsOf(obs)[i] == tf;
    }
  }
}
