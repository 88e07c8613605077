/**
 The override pairs of `Config.parse_args`: the unrecognised command-line
 tokens are read two at a time as `--key value`, starting at the SECOND
 token, into a flat override map. A key without the `--` prefix is a usage
 failure; a last token without a partner is dropped.
 */
module CommandLine {
  import opened Results
  import opened Strings

  /** The loop reads a key at `i` (and its value at `i + 1`): i = 1, 3, 5, ... while i < |tokens| - 1. */
  predicate ReadsKeyAt(tokens: seq<string>, i: int) {
    1 <= i < |tokens| - 1 && i % 2 == 1
  }

  /** The override map of the command line. */
  function ParseArgs(tokens: seq<string>): Result<map<string, string>> {
    Pairs(tokens, 1, map[])
  }

  /** The loop from index `i` on, with the pairs stored so far in `acc`. */
  function Pairs(tokens: seq<string>, i: nat, acc: map<string, string>): Result<map<string, string>>
    decreases |tokens| - i
  {
    if i + 1 < |tokens| then
      if StartsWith(tokens[i], "--") then Pairs(tokens, i + 2, acc[tokens[i][2..] := tokens[i + 1]])
      else Err(MalformedArgument(tokens))
    else Ok(acc)
  }

  /** Key positions from `i` on: those the loop visits after reaching `i`. */
  predicate ReadsFrom(tokens: seq<string>, i: int, j: int) {
    i <= j < |tokens| - 1 && (j - i) % 2 == 0
  }

  /** No key position after `j` (from `i` on) carries the same token. */
  ghost predicate LastRead(tokens: seq<string>, i: int, j: int)
    requires 0 <= j < |tokens|
  {
    forall j' :: ReadsFrom(tokens, i, j') && j' > j ==> tokens[j'] != tokens[j]
  }

  lemma FlagKey(flag: string, k: string)
    ensures StartsWith(flag, "--") && flag[2..] == k <==> flag == "--" + k
  {
    if flag == "--" + k {
      assert flag[..2] == "--";
      assert flag[2..] == k;
    }
    if StartsWith(flag, "--") && flag[2..] == k {
      assert flag == flag[..2] + flag[2..];
    }
  }

  /** The loop fails exactly when some key it reads lacks the `--` prefix. */
  lemma {:induction false} PairsFailIff(tokens: seq<string>, i: nat, acc: map<string, string>)
    ensures Pairs(tokens, i, acc).Err? <==> exists j :: ReadsFrom(tokens, i, j) && !StartsWith(tokens[j], "--")
    ensures Pairs(tokens, i, acc).Err? ==> Pairs(tokens, i, acc).error == MalformedArgument(tokens)
    decreases |tokens| - i
  {
    if i + 1 < |tokens| {
      if StartsWith(tokens[i], "--") {
        var acc' := acc[tokens[i][2..] := tokens[i + 1]];
        PairsFailIff(tokens, i + 2, acc');
        if exists j :: ReadsFrom(tokens, i, j) && !StartsWith(tokens[j], "--") {
          var j :| ReadsFrom(tokens, i, j) && !StartsWith(tokens[j], "--");
          assert ReadsFrom(tokens, i + 2, j);
        }
      } else {
        assert ReadsFrom(tokens, i, i);
      }
    }
  }

  /** A successful loop stores exactly the names it started with and the names of the keys it reads. */
  lemma {:induction false} PairsKeys(tokens: seq<string>, i: nat, acc: map<string, string>, k: string)
    requires Pairs(tokens, i, acc).Ok?
    ensures k in Pairs(tokens, i, acc).value <==>
      k in acc || exists j :: ReadsFrom(tokens, i, j) && tokens[j] == "--" + k
    decreases |tokens| - i
  {
    var d := Pairs(tokens, i, acc).value;
    if i + 1 < |tokens| {
      var k0 := tokens[i][2..];
      var acc' := acc[k0 := tokens[i + 1]];
      PairsKeys(tokens, i + 2, acc', k);
      FlagKey(tokens[i], k);
      if k in d && k !in acc && k != k0 {
        var j :| ReadsFrom(tokens, i + 2, j) && tokens[j] == "--" + k;
        assert ReadsFrom(tokens, i, j);
      }
      if k == k0 {
        assert ReadsFrom(tokens, i, i);
      }
      if exists j :: ReadsFrom(tokens, i, j) && tokens[j] == "--" + k {
        var j :| ReadsFrom(tokens, i, j) && tokens[j] == "--" + k;
        if j != i {
          assert ReadsFrom(tokens, i + 2, j);
        }
      }
    }
  }

  /** The key read last under a name decides that name's value. */
  lemma {:induction false} PairsLastWins(tokens: seq<string>, i: nat, acc: map<string, string>, j: int)
    requires Pairs(tokens, i, acc).Ok?
    requires ReadsFrom(tokens, i, j) && LastRead(tokens, i, j)
    ensures StartsWith(tokens[j], "--")
    ensures tokens[j][2..] in Pairs(tokens, i, acc).value
    ensures Pairs(tokens, i, acc).value[tokens[j][2..]] == tokens[j + 1]
    decreases |tokens| - i
  {
    var k0 := tokens[i][2..];
    var acc' := acc[k0 := tokens[i + 1]];
    if j == i {
      PairsUntouched(tokens, i + 2, acc', k0);
      forall j' | ReadsFrom(tokens, i + 2, j') ensures tokens[j'] != "--" + k0 {
        assert ReadsFrom(tokens, i, j') && j' > j;
        FlagKey(tokens[i], k0);
      }
    } else {
      assert ReadsFrom(tokens, i + 2, j);
      assert LastRead(tokens, i + 2, j);
      PairsLastWins(tokens, i + 2, acc', j);
    }
  }

  /** A stored name that no later key mentions keeps its value. */
  lemma {:induction false} PairsUntouched(tokens: seq<string>, i: nat, acc: map<string, string>, k: string)
    requires Pairs(tokens, i, acc).Ok?
    requires k in acc && forall j :: ReadsFrom(tokens, i, j) ==> tokens[j] != "--" + k
    ensures k in Pairs(tokens, i, acc).value && Pairs(tokens, i, acc).value[k] == acc[k]
    decreases |tokens| - i
  {
    if i + 1 < |tokens| {
      var k0 := tokens[i][2..];
      assert ReadsFrom(tokens, i, i);
      FlagKey(tokens[i], k);
      forall j | ReadsFrom(tokens, i + 2, j) ensures tokens[j] != "--" + k {
        assert ReadsFrom(tokens, i, j);
      }
      PairsUntouched(tokens, i + 2, acc[k0 := tokens[i + 1]], k);
    }
  }

  /**
   The command line fails exactly when a key the loop reads (positions 1, 3,
   5, ...) lacks `--`. On success the map holds exactly the names of the
   keys read, prefix removed, each bound to the value after its LAST
   occurrence.
   */
  lemma ParseArgsSpec(tokens: seq<string>)
    ensures ParseArgs(tokens).Err? <==> exists j :: ReadsKeyAt(tokens, j) && !StartsWith(tokens[j], "--")
    ensures ParseArgs(tokens).Err? ==> ParseArgs(tokens).error == MalformedArgument(tokens)
    ensures ParseArgs(tokens).Ok? ==>
      var d := ParseArgs(tokens).value;
      && (forall k :: k in d <==> exists j :: ReadsKeyAt(tokens, j) && tokens[j] == "--" + k)
      && (forall j :: ReadsKeyAt(tokens, j) && LastRead(tokens, 1, j) ==>
            StartsWith(tokens[j], "--") && tokens[j][2..] in d && d[tokens[j][2..]] == tokens[j + 1])
  {
    assert forall j :: ReadsKeyAt(tokens, j) <==> ReadsFrom(tokens, 1, j);
    PairsFailIff(tokens, 1, map[]);
    if ParseArgs(tokens).Ok? {
      var d := ParseArgs(tokens).value;
      forall k ensures k in d <==> exists j :: ReadsKeyAt(tokens, j) && tokens[j] == "--" + k {
        PairsKeys(tokens, 1, map[], k);
      }
      forall j | ReadsKeyAt(tokens, j) && LastRead(tokens, 1, j)
        ensures StartsWith(tokens[j], "--") && tokens[j][2..] in d && d[tokens[j][2..]] == tokens[j + 1]
      {
        PairsLastWins(tokens, 1, map[], j);
      }
    }
  }

  /** Loop runs that agree on every position they read give the same result. */
  lemma {:induction false} PairsAgree(a: seq<string>, b: seq<string>, i: nat, acc: map<string, string>)
    requires 1 <= i && 1 <= |a| == |b| && a[1..] == b[1..]
    ensures Pairs(a, i, acc) == Pairs(b, i, acc) || (Pairs(a, i, acc).Err? && Pairs(b, i, acc).Err?)
    decreases |a| - i
  {
    if i + 1 < |a| {
      assert a[i] == a[1..][i - 1] && b[i] == b[1..][i - 1];
      assert a[i + 1] == a[1..][i] && b[i + 1] == b[1..][i];
      if StartsWith(a[i], "--") {
        PairsAgree(a, b, i + 2, acc[a[i][2..] := a[i + 1]]);
      }
    }
  }

  /** The first token is never read: replacing it changes nothing but the failure's token list. */
  lemma FirstTokenIgnored(first: string, other: string, rest: seq<string>)
    ensures ParseArgs([first] + rest).Ok? <==> ParseArgs([other] + rest).Ok?
    ensures ParseArgs([first] + rest).Ok? ==> ParseArgs([first] + rest) == ParseArgs([other] + rest)
  {
    assert ([first] + rest)[1..] == ([other] + rest)[1..];
    PairsAgree([first] + rest, [other] + rest, 1, map[]);
  }

  /** Loop runs over a token list and its extension by one token agree while the pairs fit the shorter one. */
  lemma {:induction false} PairsDropLast(tokens: seq<string>, last: string, i: nat, acc: map<string, string>)
    requires i % 2 == 1 && |tokens| % 2 == 1
    ensures var longer := tokens + [last];
      Pairs(longer, i, acc) == Pairs(tokens, i, acc) ||
      (Pairs(longer, i, acc).Err? && Pairs(tokens, i, acc).Err?)
    decreases |tokens| - i
  {
    var longer := tokens + [last];
    if i + 1 < |tokens| {
      assert longer[i] == tokens[i] && longer[i + 1] == tokens[i + 1];
      if StartsWith(tokens[i], "--") {
        PairsDropLast(tokens, last, i + 2, acc[tokens[i][2..] := tokens[i + 1]]);
      }
    } else {
      assert i + 1 >= |longer|;
    }
  }

  /** An unpaired trailing token is silently dropped. */
  lemma TrailingTokenIgnored(tokens: seq<string>, last: string)
    requires |tokens| % 2 == 1
    ensures ParseArgs(tokens + [last]).Ok? <==> ParseArgs(tokens).Ok?
    ensures ParseArgs(tokens).Ok? ==> ParseArgs(tokens + [last]) == ParseArgs(tokens)
  {
    PairsDropLast(tokens, last, 1, map[]);
  }
}
