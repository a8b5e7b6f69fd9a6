/**
 * sqlitemap::sql: every ":table" placeholder in a statement template is
 * replaced by the configured table name in double quotes, scanning left to
 * right and never rescanning inserted text.
 */
module SqlTemplate {
  import opened Wrappers
  import opened Text

  const PLACEHOLDER: string := ":table"

  /** The quoted table name that replaces the placeholder. */
  function Quoted(table: string): string {
    "\"" + table + "\""
  }

  /** Left-to-right replacement of every placeholder occurrence by `repl`. */
  function Substituted(t: string, repl: string): string
    decreases |t|
  {
    match FindFrom(t, PLACEHOLDER, 0)
    case None => t
    case Some(k) => t[..k] + repl + Substituted(t[k + |PLACEHOLDER|..], repl)
  }

  /** A search starting at `from` is a search in the suffix, shifted by `from`. */
  lemma FindFromSuffix(s: string, pat: string, from: nat)
    requires from <= |s|
    ensures FindFrom(s[from..], pat, 0).None? ==> FindFrom(s, pat, from).None?
    ensures FindFrom(s[from..], pat, 0).Some? ==>
      FindFrom(s, pat, from) == Some(from + FindFrom(s[from..], pat, 0).value)
  {
    var u := s[from..];
    forall i: nat | from + i + |pat| <= |s|
      ensures OccursAt(s, pat, from + i) <==> OccursAt(u, pat, i)
    {
      assert s[from + i..from + i + |pat|] == u[i..i + |pat|];
    }
    match FindFrom(u, pat, 0)
    case None =>
      forall j | from <= j
        ensures !OccursAt(s, pat, j)
      {
        if j + |pat| <= |s| {
          assert OccursAt(s, pat, from + (j - from)) <==> OccursAt(u, pat, j - from);
        }
      }
    case Some(k) =>
      forall j | from <= j < from + k
        ensures !OccursAt(s, pat, j)
      {
        if j + |pat| <= |s| {
          assert OccursAt(s, pat, from + (j - from)) <==> OccursAt(u, pat, j - from);
        }
      }
      assert OccursAt(s, pat, from + k) <==> OccursAt(u, pat, k);
      FindFromFirst(s, pat, from, from + k);
  }

  /** One round of the loop: replacing the occurrence found at `p` keeps the pending result. */
  lemma ReplaceStep(out: string, pos: nat, p: nat, repl: string)
    requires pos <= |out| && FindFrom(out, PLACEHOLDER, pos) == Some(p)
    ensures out[..pos] + Substituted(out[pos..], repl) ==
      (out[..p] + repl) + Substituted(out[p + |PLACEHOLDER|..], repl)
  {
    var rest := out[pos..];
    var k := p - pos;
    assert pos <= p && p + |PLACEHOLDER| <= |out|;
    assert FindFrom(rest, PLACEHOLDER, 0) == Some(k) by {
      FindFromSuffix(out, PLACEHOLDER, pos);
    }
    var tail := Substituted(out[p + |PLACEHOLDER|..], repl);
    assert Substituted(rest, repl) == rest[..k] + repl + tail by {
      SubstitutedAt(rest, repl, k);
      assert rest[k + |PLACEHOLDER|..] == out[p + |PLACEHOLDER|..];
    }
    SpliceAt(out, pos, p, repl, tail);
  }

  /** Re-associating a splice made in the suffix `s[pos..]`. */
  lemma SpliceAt(s: string, pos: nat, p: nat, x: string, y: string)
    requires pos <= p <= |s|
    ensures s[..pos] + (s[pos..][..p - pos] + x + y) == (s[..p] + x) + y
  {
    assert s[pos..][..p - pos] == s[pos..p];
    assert s[..pos] + s[pos..p] == s[..p];
  }

  /** Substituted, unfolded at the first occurrence `k`. */
  lemma SubstitutedAt(t: string, repl: string, k: nat)
    requires FindFrom(t, PLACEHOLDER, 0) == Some(k)
    ensures k + |PLACEHOLDER| <= |t|
    ensures Substituted(t, repl) == t[..k] + repl + Substituted(t[k + |PLACEHOLDER|..], repl)
  {
  }

  /**
   * sql(): the in-place replacement loop. Its result is the left-to-right
   * substitution of the quoted table name.
   */
  method Sql(template: string, table: string) returns (output: string)
    ensures output == Substituted(template, Quoted(table))
  {
    var replacement := Quoted(table);
    output := template;
    var pos: nat := 0;
    var found := FindFrom(output, PLACEHOLDER, pos);
    assert output[..0] == [] && output[0..] == output;
    while found.Some?
      invariant pos <= |output|
      invariant Substituted(template, replacement) == output[..pos] + Substituted(output[pos..], replacement)
      invariant found == FindFrom(output, PLACEHOLDER, pos)
      decreases |output| - pos
    {
      var p := found.value;
      ReplaceStep(output, pos, p, replacement);
      var before := output[..p];
      var after := output[p + |PLACEHOLDER|..];
      output := before + replacement + after;
      pos := p + |replacement|;
      assert output[..pos] == before + replacement;
      assert output[pos..] == after;
      found := FindFrom(output, PLACEHOLDER, pos);
    }
    FindFromSuffix(output, PLACEHOLDER, pos);
    assert output[..pos] + output[pos..] == output;
  }

  /** `s` contains no placeholder. */
  ghost predicate PlaceholderFree(s: string) {
    forall j: nat :: !OccursAt(s, PLACEHOLDER, j)
  }

  /** A template without placeholder is returned unchanged. */
  lemma NoPlaceholderUnchanged(t: string, repl: string)
    requires PlaceholderFree(t)
    ensures Substituted(t, repl) == t
  {
  }

  /** The first placeholder after a colon-free prefix is the one replaced first. */
  lemma SubstitutedAfterPrefix(a: string, b: string, repl: string)
    requires ':' !in a
    ensures Substituted(a + PLACEHOLDER + b, repl) == a + repl + Substituted(b, repl)
  {
    var t := a + PLACEHOLDER + b;
    FindAfterPrefix(a, PLACEHOLDER, b, 0);
    assert t[..|a|] == a;
    assert t[|a| + |PLACEHOLDER|..] == b;
  }

  /**
   * The statement of the sql() test: with the default table "unnamed" and with a
   * table literally named ":table", whose placeholder-like name is not replaced again.
   */
  lemma SelectAllFrom(table: string)
    ensures Substituted("select * from " + PLACEHOLDER, Quoted(table)) == "select * from " + Quoted(table)
  {
    var a := "select * from ";
    assert ':' !in a;
    SubstitutedAfterPrefix(a, "", Quoted(table));
    assert a + PLACEHOLDER + "" == a + PLACEHOLDER;
    assert Substituted("", Quoted(table)) == "";
  }

  /** Three placeholder-free pieces stay free when the middle one is quoted at both ends. */
  lemma FreeAcrossQuotes(x: string, m: string, y: string)
    requires PlaceholderFree(x) && PlaceholderFree(m) && PlaceholderFree(y)
    requires |m| >= 2 && m[0] == '"' && m[|m| - 1] == '"'
    ensures PlaceholderFree(x + m + y)
  {
    var s := x + m + y;
    var L := |PLACEHOLDER|;
    forall j: nat
      ensures !OccursAt(s, PLACEHOLDER, j)
    {
      if j + L <= |s| {
        if j + L <= |x| {
          assert s[j..j + L] == x[j..j + L];
          assert !OccursAt(x, PLACEHOLDER, j);
        } else if j >= |x| + |m| {
          assert s[j..j + L] == y[j - |x| - |m|..j - |x| - |m| + L];
          assert !OccursAt(y, PLACEHOLDER, j - |x| - |m|);
        } else if j >= |x| && j + L <= |x| + |m| {
          assert s[j..j + L] == m[j - |x|..j - |x| + L];
          assert !OccursAt(m, PLACEHOLDER, j - |x|);
        } else if j < |x| {
          assert s[|x|] == '"';
          assert s[j..j + L][|x| - j] == '"';
        } else {
          assert s[|x| + |m| - 1] == '"';
          assert s[j..j + L][|x| + |m| - 1 - j] == '"';
        }
      }
    }
  }

  /** Quoting a placeholder-free table name gives a placeholder-free replacement. */
  lemma QuotedFree(table: string)
    requires PlaceholderFree(table)
    ensures PlaceholderFree(Quoted(table))
  {
    var q := Quoted(table);
    var L := |PLACEHOLDER|;
    forall j: nat
      ensures !OccursAt(q, PLACEHOLDER, j)
    {
      if j + L <= |q| {
        if j >= 1 && j + L <= |q| - 1 {
          assert q[j..j + L] == table[j - 1..j - 1 + L];
          assert !OccursAt(table, PLACEHOLDER, j - 1);
        } else if j == 0 {
          assert q[j..j + L][0] == '"';
        } else {
          assert q[j..j + L][L - 1] == q[|q| - 1] == '"';
        }
      }
    }
  }

  /** The text before the first placeholder contains none. */
  lemma HeadFree(t: string, k: nat)
    requires FindFrom(t, PLACEHOLDER, 0) == Some(k)
    ensures PlaceholderFree(t[..k])
  {
    var head := t[..k];
    forall j: nat
      ensures !OccursAt(head, PLACEHOLDER, j)
    {
      if j + |PLACEHOLDER| <= |head| {
        assert head[j..j + |PLACEHOLDER|] == t[j..j + |PLACEHOLDER|];
        assert j < k;
        assert !OccursAt(t, PLACEHOLDER, j);
      }
    }
  }

  /**
   * Unless the table name itself contains the placeholder, sql() leaves no
   * placeholder behind.
   */
  lemma {:induction false} SubstitutedFree(t: string, table: string)
    requires PlaceholderFree(table)
    ensures PlaceholderFree(Substituted(t, Quoted(table)))
    decreases |t|
  {
    match FindFrom(t, PLACEHOLDER, 0)
    case None =>
    case Some(k) =>
      var tail := t[k + |PLACEHOLDER|..];
      HeadFree(t, k);
      QuotedFree(table);
      SubstitutedFree(tail, table);
      FreeAcrossQuotes(t[..k], Quoted(table), Substituted(tail, Quoted(table)));
  }
}
