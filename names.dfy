/** String helpers of the engine: SQL quoting and the naming convention of
    the schemas that hold the views of a branch (`<schema>_<branch>_rev_head`,
    `<schema>_<branch>_rev_<n>`) and of the temporary diff schemas. */
module Names {
  import opened Common

  /** The character `'`. */
  const Quote: char := '\''

  /** Number of occurrences of `c` in `s`. */
  function Count(s: string, c: char): nat
  {
    if s == [] then 0 else (if s[0] == c then 1 else 0) + Count(s[1..], c)
  }

  /** Every `'` of `r` is immediately followed by a second `'`: the string can
      sit between single quotes in an SQL literal. */
  predicate QuotesPaired(r: string)
  {
    if r == [] then true
    else if r[0] != Quote then QuotesPaired(r[1..])
    else |r| >= 2 && r[1] == Quote && QuotesPaired(r[2..])
  }

  /** `escape_quote`: doubles every single quote. */
  function EscapeQuote(s: string): (r: string)
    ensures |r| == |s| + Count(s, Quote)
    ensures QuotesPaired(r)
    ensures Quote !in s ==> r == s
  {
    if s == [] then []
    else
      var rest := EscapeQuote(s[1..]);
      if s[0] == Quote then [Quote, Quote] + rest else [s[0]] + rest
  }

  /** How an SQL engine reads a literal body back: `''` stands for `'`. */
  function Unescape(r: string): string
  {
    if r == [] then []
    else if r[0] == Quote && |r| >= 2 && r[1] == Quote then [Quote] + Unescape(r[2..])
    else [r[0]] + Unescape(r[1..])
  }

  /** The message stored by the database is the message the caller gave. */
  lemma {:induction false} EscapeQuoteRoundTrip(s: string)
    ensures Unescape(EscapeQuote(s)) == s
  {
    if s != [] {
      EscapeQuoteRoundTrip(s[1..]);
      var rest := EscapeQuote(s[1..]);
      if s[0] == Quote {
        assert ([Quote, Quote] + rest)[2..] == rest;
      } else {
        assert ([s[0]] + rest)[1..] == rest;
      }
    }
  }

  /** Python's `str.find` for one character: the first index of `c`, or -1. */
  function Find(s: string, c: char): (r: int)
    ensures r == -1 <==> c !in s
    ensures r != -1 ==> 0 <= r < |s| && s[r] == c && c !in s[..r]
  {
    if s == [] then -1
    else if s[0] == c then 0
    else
      var i := Find(s[1..], c);
      if i == -1 then -1
      else
        assert s[..i + 1] == [s[0]] + s[1..][..i];
        i + 1
  }

  /** `quote_ident`: the test is the truth value of `find(' ')`, which is false
      only when the name starts with a space (-1, "no space", is true). */
  function QuoteIdent(ident: string): (r: string)
  {
    if Find(ident, ' ') != 0 then "\"" + ident + "\"" else ident
  }

  /** What `quote_ident` does, in terms of the name: it leaves the name bare
      exactly when it starts with a space, and double-quotes it otherwise,
      including when it contains no space at all. */
  lemma QuoteIdentBehaviour(ident: string)
    ensures QuoteIdent(ident) == ident <==> |ident| > 0 && ident[0] == ' '
    ensures !(|ident| > 0 && ident[0] == ' ') ==>
      QuoteIdent(ident) == "\"" + ident + "\""
  {
    if |ident| > 0 && ident[0] == ' ' {
      assert Find(ident, ' ') == 0;
    } else {
      assert |"\"" + ident + "\""| == |ident| + 2;
    }
  }

  /** `s` ends with `suffix`; for a suffix of length 9 this is also the
      slice test `s[-9:] == suffix`. */
  predicate EndsWith(s: string, suffix: string)
  {
    |suffix| <= |s| && s[|s| - |suffix|..] == suffix
  }

  const HeadSuffix: string := "_rev_head"

  /** The schema holding the head views of `branch`. */
  function HeadSchemaName(schema: string, branch: string): string
  {
    schema + "_" + branch + HeadSuffix
  }

  /** Decimal digits of a natural number, as `str` prints it. */
  function NatToString(n: nat): (r: string)
    ensures |r| > 0
    ensures forall i :: 0 <= i < |r| ==> '0' <= r[i] <= '9'
    decreases n
  {
    if n < 10 then [Digit(n)] else NatToString(n / 10) + [Digit(n % 10)]
  }

  function Digit(d: nat): (c: char)
    requires d < 10
    ensures '0' <= c <= '9'
  {
    "0123456789"[d]
  }

  function DigitValue(c: char): nat
    requires '0' <= c <= '9'
  {
    c as nat - '0' as nat
  }

  /** Reads back a non-empty string of decimal digits. */
  function ParseNat(s: string): nat
    requires forall i :: 0 <= i < |s| ==> '0' <= s[i] <= '9'
  {
    if s == [] then 0 else 10 * ParseNat(s[..|s| - 1]) + DigitValue(s[|s| - 1])
  }

  lemma {:induction false} NatToStringRoundTrip(n: nat)
    ensures ParseNat(NatToString(n)) == n
    decreases n
  {
    if n >= 10 {
      NatToStringRoundTrip(n / 10);
      var r := NatToString(n / 10) + [Digit(n % 10)];
      assert r[..|r| - 1] == NatToString(n / 10);
    }
  }

  /** The schema holding the views of `branch` at revision `rev`. */
  function RevSchemaName(schema: string, branch: string, rev: nat): string
  {
    schema + "_" + branch + "_rev_" + NatToString(rev)
  }

  /** A revision schema never takes the name of a head schema: one ends
      with a digit, the other with `d` of `head`. */
  lemma RevSchemaIsNotHeadSchema(schema: string, branch: string, rev: nat,
                                 schema': string, branch': string)
    ensures RevSchemaName(schema, branch, rev) != HeadSchemaName(schema', branch')
  {
    var r := RevSchemaName(schema, branch, rev);
    var h := HeadSchemaName(schema', branch');
    var digits := NatToString(rev);
    assert r[|r| - 1] == digits[|digits| - 1];
    assert h[|h| - 1] == 'd';
  }

  /** The revision number can be read back from the revision schema name. */
  lemma RevSchemaNameDeterminesRevision(schema: string, branch: string, rev: nat, rev': nat)
    ensures RevSchemaName(schema, branch, rev) == RevSchemaName(schema, branch, rev') ==> rev == rev'
  {
    var prefix := schema + "_" + branch + "_rev_";
    if RevSchemaName(schema, branch, rev) == RevSchemaName(schema, branch, rev') {
      var a := RevSchemaName(schema, branch, rev);
      assert a[|prefix|..] == NatToString(rev);
      assert a[|prefix|..] == NatToString(rev');
      NatToStringRoundTrip(rev);
      NatToStringRoundTrip(rev');
    }
  }

  /** The temporary schema that carries a diff from revision `rev` to `target`. */
  function DiffSchemaName(schema: string, branch: string, rev: nat, target: nat): (r: string)
    ensures r == schema + "_" + branch + "_" + DiffRange(rev, target)
    ensures EndsWith(r, "_diff")
  {
    var r := schema + "_" + branch + "_" + DiffRange(rev, target);
    assert r[|r| - 5..] == "_diff";
    r
  }

  /** The part of the diff schema name after schema and branch. */
  function DiffRange(rev: nat, target: nat): string
  {
    NatToString(rev) + "_to_" + (NatToString(target) + "_diff")
  }

  predicate AllDigits(s: string)
  {
    forall i :: 0 <= i < |s| ==> '0' <= s[i] <= '9'
  }

  /** A run of digits ends where a non-digit begins: text made of digits,
      a separator that starts with a non-digit, and a rest splits one way. */
  lemma DigitsThenSeparator(a: string, b: string, a': string, b': string, sep: string)
    requires AllDigits(a) && AllDigits(a')
    requires |sep| > 0 && !('0' <= sep[0] <= '9')
    requires a + sep + b == a' + sep + b'
    ensures a == a' && b == b'
  {
    var x := a + sep + b;
    assert x[|a|] == sep[0] && x[|a'|] == sep[0];
    assert |a| == |a'|;
    assert a == x[..|a|] == a';
    assert b == x[|a| + |sep|..] == b';
  }

  lemma DiffRangeDeterminesRevisions(rev: nat, target: nat, rev': nat, target': nat)
    requires DiffRange(rev, target) == DiffRange(rev', target')
    ensures rev == rev' && target == target'
  {
    DigitsThenSeparator(NatToString(rev), NatToString(target) + "_diff", NatToString(rev'), NatToString(target') + "_diff", "_to_");
    var t := NatToString(target) + "_diff";
    assert NatToString(target) == t[..|t| - 5] == NatToString(target');
    NatToStringRoundTrip(rev);
    NatToStringRoundTrip(rev');
    NatToStringRoundTrip(target);
    NatToStringRoundTrip(target');
  }

  /** Both revisions can be read back from the diff schema name. */
  lemma DiffSchemaNameDeterminesRevisions(schema: string, branch: string, rev: nat, target: nat, rev': nat, target': nat)
    ensures DiffSchemaName(schema, branch, rev, target) == DiffSchemaName(schema, branch, rev', target') <==>
      rev == rev' && target == target'
  {
    if DiffSchemaName(schema, branch, rev, target) == DiffSchemaName(schema, branch, rev', target') {
      var prefix := schema + "_" + branch + "_";
      var n := DiffSchemaName(schema, branch, rev, target);
      assert DiffRange(rev, target) == n[|prefix|..] == DiffRange(rev', target');
      DiffRangeDeterminesRevisions(rev, target, rev', target');
    }
  }

  /** Python's `rpartition` on `_`, keeping the two outer parts: the text
      before the last `_` and the text after it, or `("", s)` without one. */
  function RPartition(s: string): (string, string)
    decreases |s|
  {
    if s == [] then ("", "")
    else if s[|s| - 1] == '_' then (s[..|s| - 1], "")
    else
      var p := RPartition(s[..|s| - 1]);
      if '_' in s[..|s| - 1] then (p.0, p.1 + [s[|s| - 1]]) else ("", s)
  }

  /** The split is at the last underscore: the right part has none, and
      the parts joined by `_` give the text back; without an underscore the
      whole text is the right part. */
  lemma {:induction false} RPartitionSplits(s: string)
    ensures '_' !in RPartition(s).1
    ensures '_' in s ==> s == RPartition(s).0 + "_" + RPartition(s).1
    ensures '_' !in s ==> RPartition(s) == ("", s)
    decreases |s|
  {
    if s != [] {
      var t := s[..|s| - 1];
      assert s == t + [s[|s| - 1]];
      if s[|s| - 1] != '_' {
        RPartitionSplits(t);
        if '_' !in t {
          assert forall i :: 0 <= i < |s| - 1 ==> s[i] == t[i];
        }
      }
    }
  }

  /** How checkout takes apart a `..._rev_head` schema name: drop the last
      nine characters (the whole name when it is shorter, as a slice does),
      then split at the last `_` into the versioned schema and the branch. */
  function SplitHeadSchema(name: string): (string, string)
  {
    RPartition(if |name| >= |HeadSuffix| then name[..|name| - |HeadSuffix|] else "")
  }

  /** Building a head schema name and splitting it gives back the schema and
      the branch whenever the branch name has no underscore. */
  lemma SplitHeadSchemaRoundTrip(schema: string, branch: string)
    requires '_' !in branch
    ensures EndsWith(HeadSchemaName(schema, branch), HeadSuffix)
    ensures SplitHeadSchema(HeadSchemaName(schema, branch)) == (schema, branch)
  {
    var name := HeadSchemaName(schema, branch);
    var prefix := schema + "_" + branch;
    assert name[..|name| - |HeadSuffix|] == prefix;
    assert name[|name| - |HeadSuffix|..] == HeadSuffix;
    assert prefix[|schema|] == '_';
    var r := RPartition(prefix);
    RPartitionSplits(prefix);
    assert prefix == r.0 + "_" + r.1;
    LastUnderscore(schema, branch, r.0, r.1);
  }

  /** The characters of `x + "_" + y`: the underscore at `|x|`, then `y`. */
  lemma Joined(x: string, y: string, j: int)
    ensures (x + "_" + y)[|x|] == '_'
    ensures 0 <= j < |y| ==> (x + "_" + y)[|x| + 1 + j] == y[j] && y[j] in y
  {
  }

  /** Two splits `a + "_" + b` of the same string whose right parts have no
      underscore are the same split. */
  lemma LastUnderscore(a: string, b: string, c: string, d: string)
    requires '_' !in b && '_' !in d
    requires a + "_" + b == c + "_" + d
    ensures a == c && b == d
  {
    var s := a + "_" + b;
    if |b| < |d| {
      Joined(a, b, -1);
      Joined(c, d, |d| - |b| - 1);
      assert false;
    } else if |b| > |d| {
      Joined(c, d, -1);
      Joined(a, b, |b| - |d| - 1);
      assert false;
    } else {
      assert a == s[..|a|] == c;
      assert b == s[|a| + 1..] == d;
    }
  }

  /** Conversely, a head schema name whose split finds an underscore is the
      head schema name of the two parts; without one the schema part is empty. */
  lemma SplitHeadSchemaSound(name: string)
    requires EndsWith(name, HeadSuffix)
    ensures var (schema, branch) := SplitHeadSchema(name);
      '_' !in branch &&
      (name == HeadSchemaName(schema, branch) ||
       (schema == "" && name == branch + HeadSuffix))
  {
    var prefix := name[..|name| - |HeadSuffix|];
    RPartitionSplits(prefix);
    assert name == prefix + HeadSuffix;
  }

  /** ASCII lower-casing, as SQLite's `LIKE` folds case. */
  function Lower(c: char): char
  {
    if 'A' <= c <= 'Z' then (c as int + 32) as char else c
  }

  const ConflictsSuffix: string := "conflicts"

  /** SQLite's `tbl_name LIKE '%_conflicts'`: `%` any text, `_` exactly one
      character, then `conflicts` in any case. */
  predicate LikeConflicts(name: string)
  {
    |name| >= 10 &&
    forall i :: 0 <= i < 9 ==> Lower(name[|name| - 9 + i]) == ConflictsSuffix[i]
  }

  /** The conflict table of a layer. */
  function ConflictTableName(table: string): string
  {
    table + "_conflicts"
  }

  /** `name[:-10]`: the name without its last ten characters. */
  function StripConflictsSuffix(name: string): (r: string)
    ensures |name| >= 10 ==> |r| == |name| - 10
    ensures |name| < 10 ==> r == ""
  {
    if |name| >= 10 then name[..|name| - 10] else ""
  }

  /** The conflict table of a layer is recognised by the `LIKE` pattern and
      stripping the suffix gives back the layer name. */
  lemma ConflictTableNameRoundTrip(table: string)
    ensures LikeConflicts(ConflictTableName(table))
    ensures StripConflictsSuffix(ConflictTableName(table)) == table
  {
    var n := ConflictTableName(table);
    assert n[|n| - 9..] == ConflictsSuffix;
    forall i | 0 <= i < 9
      ensures Lower(n[|n| - 9 + i]) == ConflictsSuffix[i]
    {
      assert n[|n| - 9 + i] == n[|n| - 9..][i];
    }
    assert n[..|n| - 10] == table;
  }

  /** The pattern is wider than the suffix the engine appends: any
      character in place of the underscore and `conflicts` in any case
      also match, and stripping still gives the text before them; the name
      is a conflict table's only for `_` and lower-case `conflicts`. */
  lemma LikeConflictsIsWider(layer: string, sep: char, word: string)
    requires |word| == 9 && forall i :: 0 <= i < 9 ==> Lower(word[i]) == ConflictsSuffix[i]
    ensures LikeConflicts(layer + [sep] + word)
    ensures StripConflictsSuffix(layer + [sep] + word) == layer
    ensures layer + [sep] + word == ConflictTableName(layer) <==> sep == '_' && word == ConflictsSuffix
  {
    var n := layer + [sep] + word;
    forall i | 0 <= i < 9
      ensures Lower(n[|n| - 9 + i]) == ConflictsSuffix[i]
    {
      assert n[|n| - 9 + i] == word[i];
    }
    assert n[..|n| - 10] == layer;
    if n == ConflictTableName(layer) {
      assert n[|layer|] == sep;
      assert word == n[|layer| + 1..] == ConflictsSuffix;
    }
  }

  /** Checkout's validation of `schema.table`: exactly one `.`, both parts
      non-empty, and the schema ends with `_rev_head`. */
  function ParseTableName(name: string): Result<(string, string)>
  {
    var i := Find(name, '.');
    if i == -1 then Err(MalformedTableName)
    else
      var schema := name[..i];
      var table := name[i + 1..];
      if '.' in table then Err(MalformedTableName)
      else if schema == "" || table == "" || !EndsWith(schema, HeadSuffix) then Err(NotHeadSchema)
      else Ok((schema, table))
  }

  /** An accepted name is its schema and table joined by the one `.`, both
      non-empty, the schema a `_rev_head` one. */
  lemma ParseTableNameSound(name: string)
    ensures var r := ParseTableName(name);
      r.Ok? ==>
        name == r.value.0 + "." + r.value.1 &&
        '.' !in r.value.0 && '.' !in r.value.1 &&
        r.value.0 != "" && r.value.1 != "" && EndsWith(r.value.0, HeadSuffix)
  {
    var i := Find(name, '.');
    if i != -1 {
      assert name == name[..i] + "." + name[i + 1..];
    }
  }

  /** The validation accepts exactly the names that split into a schema and
      a table, dot-free and non-empty, with a `_rev_head` schema. */
  lemma ParseTableNameComplete(schema: string, table: string)
    requires '.' !in schema && '.' !in table
    requires schema != "" && table != "" && EndsWith(schema, HeadSuffix)
    ensures ParseTableName(schema + "." + table) == Ok((schema, table))
  {
    var name := schema + "." + table;
    assert name[|schema|] == '.';
    assert name[..|schema|] == schema;
    assert name[|schema| + 1..] == table;
    assert '.' !in name[..|schema|];
  }
}
