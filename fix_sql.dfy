/**
 * The SQL fix-up transform of fix_sql.py: doubled single quotes are collapsed
 * to one quote, while `$$` delimiters are first masked by a placeholder so
 * that the collapse cannot touch them, then restored.
 */
module FixSql {
  import opened StrReplace

  const Quote: char := '\''

  /** The sentinel that stands in for `$$` while quotes are collapsed. */
  const Placeholder: string := "__DOLLAR_DOLLAR_PLACEHOLDER__"

  /** Step 1: every `$$` becomes the placeholder. */
  function Protect(s: string): string
  {
    Replace(s, "$$", Placeholder)
  }

  /** Step 2: every `''` becomes `'`, in one left-to-right pass. */
  function Collapse(s: string): string
  {
    Replace(s, "''", "'")
  }

  /** Step 3: every placeholder becomes `$$` again. */
  function Restore(s: string): string
  {
    Replace(s, Placeholder, "$$")
  }

  /** `fix_sql_content`: the three replacements, in the source's order. */
  function FixSqlContent(s: string): string
  {
    Restore(Collapse(Protect(s)))
  }

  /** A run of `n` single quotes. */
  function Quotes(n: nat): string
  {
    seq(n, _ => Quote)
  }

  /** The number of quotes `s` starts with. */
  function LeadingQuotes(s: string): (n: nat)
    ensures n <= |s| && s[..n] == Quotes(n)
    ensures n == |s| || s[n] != Quote
    decreases |s|
  {
    if |s| > 0 && s[0] == Quote then 1 + LeadingQuotes(s[1..]) else 0
  }

  /** The length of the quote-free text `s` starts with. */
  function LeadingText(s: string): (k: nat)
    ensures k <= |s| && Quote !in s[..k]
    ensures k == |s| || s[k] == Quote
    decreases |s|
  {
    if |s| > 0 && s[0] != Quote then 1 + LeadingText(s[1..]) else 0
  }

  /**
   * The shape of the placeholder: neither it nor `$$` holds a quote, so the
   * collapse cannot see them; it begins and ends with `_` and holds no `$`.
   */
  lemma PlaceholderShape()
    ensures Quote !in Placeholder && Quote !in "$$"
    ensures Placeholder[0] == '_' && Placeholder[|Placeholder| - 1] == '_'
    ensures '$' !in Placeholder
  {
  }

  /** A quote-free text passes through the collapse unchanged. */
  lemma CollapseQuoteFree(s: string)
    requires Quote !in s
    ensures Collapse(s) == s
  {
    NotContainedWithoutFirstChar(s, "''");
    ReplaceWithoutOccurrence(s, "''", "'");
  }

  /** A run of quotes holds no occurrence of a pattern without quotes. */
  lemma QuotesUntouched(n: nat, pat: string, rep: string)
    requires |pat| > 0 && Quote !in pat
    ensures Replace(Quotes(n), pat, rep) == Quotes(n)
  {
    assert pat[0] in pat;
    NotContainedWithoutFirstChar(Quotes(n), pat);
    ReplaceWithoutOccurrence(Quotes(n), pat, rep);
  }

  /**
   * The collapse on a maximal run of `n` quotes: the pass takes the quotes
   * two by two and leaves `(n + 1) / 2` of them; the text after the run is
   * collapsed on its own.
   */
  lemma {:induction false} CollapseRun(n: nat, v: string)
    requires v == [] || v[0] != Quote
    ensures Collapse(Quotes(n) + v) == Quotes((n + 1) / 2) + Collapse(v)
    decreases n
  {
    var s := Quotes(n) + v;
    if n == 0 {
      assert s == v;
    } else if n == 1 {
      assert s[1..] == v;
      if v != [] {
        assert s[..2] != "''" by {
          assert s[..2][1] == v[0];
        }
      }
    } else {
      assert s[..2] == "''";
      assert s[2..] == Quotes(n - 2) + v;
      CollapseRun(n - 2, v);
      assert Quotes((n + 1) / 2) == "'" + Quotes((n - 1) / 2);
    }
  }

  /**
   * The collapse commutes with any replacement whose pattern and non-empty
   * replacement hold no quote: quote runs and quote-free stretches stay apart
   * whichever runs first.
   */
  lemma {:induction false} CollapseCommutes(t: string, pat: string, rep: string)
    requires |pat| > 0 && |rep| > 0 && Quote !in pat && Quote !in rep
    ensures Replace(Collapse(t), pat, rep) == Collapse(Replace(t, pat, rep))
    decreases |t|
  {
    if t == [] {
    } else if t[0] == Quote {
      var n := LeadingQuotes(t);
      var u := t[n..];
      var m := (n + 1) / 2;
      assert t == Quotes(n) + u;
      // pattern first, then collapse
      ReplaceCut(Quotes(n), u, pat, rep);
      QuotesUntouched(n, pat, rep);
      if u != [] {
        ReplaceHead(u, pat, rep);
      }
      CollapseRun(n, Replace(u, pat, rep));
      // collapse first, then pattern
      CollapseRun(n, u);
      ReplaceCut(Quotes(m), Collapse(u), pat, rep);
      QuotesUntouched(m, pat, rep);
      CollapseCommutes(u, pat, rep);
    } else {
      var k := LeadingText(t);
      var w := t[..k];
      var v := t[k..];
      assert t == w + v;
      CollapseQuoteFree(w);
      ReplaceKeepsOut(w, pat, rep, Quote);
      ReplaceHead(w, pat, rep);
      var rw := Replace(w, pat, rep);
      CollapseQuoteFree(rw);
      if v != [] {
        assert w[k - 1] in w;
        ReplaceCut(w, v, "''", "'");
        ReplaceHead(v, "''", "'");
        ReplaceCut(w, Collapse(v), pat, rep);
        ReplaceCut(w, v, pat, rep);
        assert rw[|rw| - 1] in rw;
        ReplaceCut(rw, Replace(v, pat, rep), "''", "'");
        CollapseCommutes(v, pat, rep);
      } else {
        assert t == w;
      }
    }
  }

  /**
   * The collapse keeps every occurrence of a quote-free pattern: the scan for
   * it finds as many occurrences after the collapse as before.
   */
  lemma {:induction false} CollapseKeepsCount(t: string, pat: string)
    requires |pat| > 0 && Quote !in pat
    ensures Count(Collapse(t), pat) == Count(t, pat)
    decreases |t|
  {
    if t == [] {
    } else if t[0] == Quote {
      var n := LeadingQuotes(t);
      var u := t[n..];
      var m := (n + 1) / 2;
      assert t == Quotes(n) + u;
      assert pat[0] in pat;
      CollapseRun(n, u);
      CountCut(Quotes(n), u, pat);
      CountCut(Quotes(m), Collapse(u), pat);
      NotContainedWithoutFirstChar(Quotes(n), pat);
      NotContainedWithoutFirstChar(Quotes(m), pat);
      CountZeroIff(Quotes(n), pat);
      CountZeroIff(Quotes(m), pat);
      CollapseKeepsCount(u, pat);
    } else {
      var k := LeadingText(t);
      var w := t[..k];
      var v := t[k..];
      assert t == w + v;
      CollapseQuoteFree(w);
      if v != [] {
        assert w[k - 1] in w;
        ReplaceCut(w, v, "''", "'");
        ReplaceHead(v, "''", "'");
        CountCut(w, Collapse(v), pat);
        CountCut(w, v, pat);
        CollapseKeepsCount(v, pat);
      } else {
        assert t == w;
      }
    }
  }

  /** Step 2 neither creates nor breaks a placeholder. */
  lemma CollapseKeepsPlaceholders(t: string)
    ensures Count(Collapse(t), Placeholder) == Count(t, Placeholder)
    ensures Contains(Collapse(t), Placeholder) <==> Contains(t, Placeholder)
  {
    PlaceholderShape();
    CollapseKeepsCount(t, Placeholder);
    CountZeroIff(t, Placeholder);
    CountZeroIff(Collapse(t), Placeholder);
  }

  /**
   * The collapse cannot create or break a placeholder: running it before the
   * restore, as the source does, gives the same text as running it after.
   */
  lemma CollapseThenRestore(t: string)
    ensures Restore(Collapse(t)) == Collapse(Restore(t))
  {
    PlaceholderShape();
    CollapseCommutes(t, Placeholder, "$$");
  }

  /** The collapse can equally run last, after the placeholder round trip. */
  lemma FixSqlContentIsCollapse(s: string)
    ensures FixSqlContent(s) == Collapse(Restore(Protect(s)))
  {
    CollapseThenRestore(Protect(s));
  }

  /** When the placeholder round-trips, the transform is exactly one collapse pass. */
  lemma FixSqlContentWhenRoundTrip(s: string)
    requires Restore(Protect(s)) == s
    ensures FixSqlContent(s) == Collapse(s)
  {
    FixSqlContentIsCollapse(s);
  }

  /** Without an underscore in the text, every placeholder the restore finds is one the protect inserted. */
  lemma {:induction false} RoundTripWithoutUnderscore(s: string)
    requires '_' !in s
    ensures Restore(Protect(s)) == s
    decreases |s|
  {
    if |s| < 2 {
      assert Protect(s) == s;
      assert Restore(s) == s;
    } else if s[..2] == "$$" {
      assert s == "$$" + s[2..];
      ReplaceAtStart("$$", s[2..], Placeholder);
      ReplaceAtStart(Placeholder, Protect(s[2..]), "$$");
      assert forall c :: c in s[2..] ==> c in s;
      RoundTripWithoutUnderscore(s[2..]);
    } else {
      assert s == [s[0]] + s[1..];
      assert s[0] in s;
      assert Protect(s) == [s[0]] + Protect(s[1..]);
      ReplaceSkipsChar(s[0], Protect(s[1..]), Placeholder, "$$");
      assert forall c :: c in s[1..] ==> c in s;
      RoundTripWithoutUnderscore(s[1..]);
    }
  }

  /** On text without an underscore, the transform is exactly one collapse pass. */
  lemma FixSqlContentWithoutUnderscore(s: string)
    requires '_' !in s
    ensures FixSqlContent(s) == Collapse(s)
  {
    RoundTripWithoutUnderscore(s);
    FixSqlContentWhenRoundTrip(s);
  }

  /** Text without `$$`, `''` or the placeholder comes back unchanged. */
  lemma FixSqlContentIdentity(s: string)
    requires !Contains(s, "$$") && !Contains(s, "''") && !Contains(s, Placeholder)
    ensures FixSqlContent(s) == s
  {
    ReplaceWithoutOccurrence(s, "$$", Placeholder);
    ReplaceWithoutOccurrence(s, "''", "'");
    ReplaceWithoutOccurrence(s, Placeholder, "$$");
  }

  /** A run of `n` quotes becomes a run of `(n + 1) / 2` quotes. */
  lemma FixSqlContentQuoteRun(n: nat)
    ensures FixSqlContent(Quotes(n)) == Quotes((n + 1) / 2)
  {
    assert '_' !in Quotes(n);
    FixSqlContentWithoutUnderscore(Quotes(n));
    CollapseRun(n, []);
    assert Quotes(n) + [] == Quotes(n);
  }

  /** Applying the transform twice to a run of `n` quotes changes the first result exactly when `n >= 3`. */
  lemma FixSqlContentNotIdempotent(n: nat)
    ensures FixSqlContent(FixSqlContent(Quotes(n))) == FixSqlContent(Quotes(n)) <==> n <= 2
  {
    FixSqlContentQuoteRun(n);
    FixSqlContentQuoteRun((n + 1) / 2);
    if (((n + 1) / 2) + 1) / 2 != (n + 1) / 2 {
      assert |Quotes((((n + 1) / 2) + 1) / 2)| != |Quotes((n + 1) / 2)|;
    }
  }

  /** Step 2 on a run of `n` quotes between two quote-free texts, either of them possibly empty. */
  lemma CollapseBetween(a: string, n: nat, b: string)
    requires Quote !in a && Quote !in b
    ensures Collapse(a + Quotes(n) + b) == a + Quotes((n + 1) / 2) + b
  {
    if a == [] {
      assert a + Quotes(n) + b == Quotes(n) + b;
      assert a + Quotes((n + 1) / 2) + b == Quotes((n + 1) / 2) + b;
    } else {
      Associative(a, Quotes(n), b);
      ReplaceCut(a, Quotes(n) + b, "''", "'");
      CollapseQuoteFree(a);
      Associative(a, Quotes((n + 1) / 2), b);
    }
    CollapseRun(n, b);
    CollapseQuoteFree(b);
  }

  /** The transform on such a text, when neither side holds an underscore. */
  lemma FixSqlContentBetween(a: string, n: nat, b: string)
    requires Quote !in a && '_' !in a
    requires Quote !in b && '_' !in b
    ensures FixSqlContent(a + Quotes(n) + b) == a + Quotes((n + 1) / 2) + b
  {
    assert '_' !in Quotes(n);
    FixSqlContentWithoutUnderscore(a + Quotes(n) + b);
    CollapseBetween(a, n, b);
  }

  /** Step 2 never touches a `$$`: it collapses the text on either side of it separately. */
  lemma CollapseAroundDollars(a: string, b: string)
    ensures Collapse(a + "$$" + b) == Collapse(a) + "$$" + Collapse(b)
  {
    assert a + "$$" + b == a + ("$$" + b);
    ReplaceCut(a, "$$" + b, "''", "'");
    ReplaceCut("$$", b, "''", "'");
    CollapseQuoteFree("$$");
  }

  /**
   * On text without an underscore, a `$$` is kept verbatim and splits the
   * transform: quotes on either side of it are collapsed independently.
   */
  lemma FixSqlContentKeepsDollars(a: string, b: string)
    requires '_' !in a && '_' !in b
    ensures FixSqlContent(a + "$$" + b) == FixSqlContent(a) + "$$" + FixSqlContent(b)
  {
    var s := a + "$$" + b;
    assert '_' !in s;
    FixSqlContentWithoutUnderscore(s);
    FixSqlContentWithoutUnderscore(a);
    FixSqlContentWithoutUnderscore(b);
    CollapseAroundDollars(a, b);
  }

  /** The placeholder holds no `$`, so step 1 passes it through. */
  lemma ProtectPlaceholder(b: string)
    ensures Protect(Placeholder + b) == Placeholder + Protect(b)
  {
    PlaceholderShape();
    NotContainedWithoutFirstChar(Placeholder, "$$");
    ReplaceWithoutOccurrence(Placeholder, "$$", Placeholder);
    ReplaceCut(Placeholder, b, "$$", Placeholder);
  }

  /** With `a` not ending in `$`, step 1 turns a sentinel after `a` and a `$$` after `a` into the same text. */
  lemma ProtectCollision(a: string, b: string)
    requires a == [] || a[|a| - 1] != '$'
    ensures Protect(a + Placeholder + b) == Protect(a + "$$" + b)
  {
    ProtectPlaceholder(b);
    ReplaceAtStart("$$", b, Placeholder);
    if a != [] {
      Associative(a, Placeholder, b);
      Associative(a, "$$", b);
      ReplaceCut(a, Placeholder + b, "$$", Placeholder);
      ReplaceCut(a, "$$" + b, "$$", Placeholder);
    } else {
      assert a + Placeholder + b == Placeholder + b;
      assert a + "$$" + b == "$$" + b;
    }
  }

  /**
   * A placeholder already present in the input gives the same output as `$$`
   * in its place, provided the text before it does not end in `$` (such a `$`
   * could pair with the first `$` of the `$$`).
   */
  lemma PlaceholderCollision(a: string, b: string)
    requires a == [] || a[|a| - 1] != '$'
    ensures FixSqlContent(a + Placeholder + b) == FixSqlContent(a + "$$" + b)
  {
    ProtectCollision(a, b);
  }

  /** Step 1 on the sentinel minus its trailing `__`, then `$$`: only the `$$` is replaced. */
  lemma ProtectPartial()
    ensures Protect(Placeholder[..|Placeholder| - 2] + "$$") == Placeholder[..|Placeholder| - 2] + Placeholder
  {
    var x := Placeholder[..|Placeholder| - 2];
    PlaceholderShape();
    assert x[|x| - 1] !in "$$";
    ReplaceCut(x, "$$", "$$", Placeholder);
    assert forall c :: c in x ==> c in Placeholder;
    NotContainedWithoutFirstChar(x, "$$");
    ReplaceWithoutOccurrence(x, "$$", Placeholder);
    ReplaceAtStart("$$", [], Placeholder);
    assert "$$" + [] == "$$";
  }

  /** Step 3 then reads a sentinel at the very start, made of the input's text and the inserted `__`. */
  lemma RestorePartial()
    ensures Restore(Placeholder[..|Placeholder| - 2] + Placeholder) == "$$" + Placeholder[2..]
  {
    var x := Placeholder[..|Placeholder| - 2];
    var y := Placeholder[2..];
    PlaceholderShape();
    assert Placeholder == x + "__";
    assert Placeholder == "__" + y;
    Associative(x, "__", y);
    ReplaceAtStart(Placeholder, y, "$$");
    assert |y| < |Placeholder|;
  }

  /**
   * The collision is wider than a literal placeholder: the placeholder minus
   * its last two underscores, followed by `$$`, holds no placeholder, yet the
   * `__` that step 1 inserts completes one that begins in the input, and
   * step 3 restores that one instead.
   */
  lemma PartialPlaceholderCollision()
    ensures !Contains(Placeholder[..|Placeholder| - 2] + "$$", Placeholder)
    ensures FixSqlContent(Placeholder[..|Placeholder| - 2] + "$$") == "$$" + Placeholder[2..]
    ensures FixSqlContent(Placeholder[..|Placeholder| - 2] + "$$") != Placeholder[..|Placeholder| - 2] + "$$"
  {
    var x := Placeholder[..|Placeholder| - 2];
    var s := x + "$$";
    PlaceholderShape();
    ProtectPartial();
    assert Placeholder == x + "__";
    CollapseQuoteFree(x + Placeholder);
    RestorePartial();
    assert !OccursAt(s, Placeholder, 0) by {
      assert s[|s| - 1] == '$';
    }
    assert ("$$" + Placeholder[2..])[0] != s[0];
  }
}
