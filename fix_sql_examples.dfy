/**
 * Concrete inputs of `fix_sql_content` and what it makes of them, each
 * derived from the general lemmas of module FixSql.
 */
module FixSqlExamples {
  import opened StrReplace
  import opened FixSql

  /** Empty text stays empty. */
  lemma EmptyInput()
    ensures FixSqlContent("") == ""
  {
  }

  /** A single doubled quote collapses. */
  lemma DoubledQuote()
    ensures FixSqlContent("it''s") == "it's"
  {
    assert "it''s" == "it" + Quotes(2) + "s";
    FixSqlContentBetween("it", 2, "s");
    assert "it" + Quotes(1) + "s" == "it's";
  }

  /** `$$` delimiters come out verbatim. */
  lemma DollarDelimiters()
    ensures FixSqlContent("a$$b$$c") == "a$$b$$c"
  {
    FixSqlContentWithoutUnderscore("a$$b$$c");
    CollapseQuoteFree("a$$b$$c");
  }

  /** Doubled quotes around a `$$` collapse; the `$$` survives. */
  lemma QuotesAroundDollars()
    ensures FixSqlContent("''$$''") == "'$$'"
  {
    assert "''$$''" == Quotes(2) + "$$" + Quotes(2);
    FixSqlContentKeepsDollars(Quotes(2), Quotes(2));
    FixSqlContentQuoteRun(2);
    assert Quotes(1) + "$$" + Quotes(1) == "'$$'";
  }

  /** Four quotes collapse pairwise, in one pass, to two. */
  lemma FourQuotes()
    ensures FixSqlContent("a''''b") == "a''b"
  {
    assert "a''''b" == "a" + Quotes(4) + "b";
    FixSqlContentBetween("a", 4, "b");
    assert "a" + Quotes(2) + "b" == "a''b";
  }

  /** Three quotes become two: the pair is collapsed and the odd quote is kept. */
  lemma ThreeQuotes()
    ensures FixSqlContent("'''") == "''"
  {
    FixSqlContentWithoutUnderscore("'''");
  }

  /** A second application collapses again, so the transform is not idempotent. */
  lemma SecondPassDiffers()
    ensures FixSqlContent(FixSqlContent("a''''b")) == "a'b"
    ensures FixSqlContent(FixSqlContent("a''''b")) != FixSqlContent("a''''b")
  {
    FourQuotes();
    assert "a''b" == "a" + Quotes(2) + "b";
    FixSqlContentBetween("a", 2, "b");
    assert "a" + Quotes(1) + "b" == "a'b";
  }

  /**
   * A literal placeholder in the input, which holds neither `$$` nor `''`,
   * comes out as `$$`.
   */
  lemma LiteralPlaceholder()
    ensures !Contains(Placeholder, "$$") && !Contains(Placeholder, "''")
    ensures FixSqlContent(Placeholder) == "$$"
  {
    PlaceholderShape();
    NotContainedWithoutFirstChar(Placeholder, "$$");
    NotContainedWithoutFirstChar(Placeholder, "''");
    PlaceholderCollision([], []);
    assert [] + Placeholder + [] == Placeholder;
    assert [] + "$$" + [] == "$$";
    FixSqlContentWithoutUnderscore("$$");
    CollapseQuoteFree("$$");
  }
}
