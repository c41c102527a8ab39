/** The final clean-up of the enriched table: one surrounding pair of double
    quotes is removed from the cells of the two generated text columns. */
module FinalClean {
  import opened Text

  /** A table cell: a string, a missing value (`NaN`), or a number. */
  datatype Cell = Str(s: string) | NaN | Number(x: real)

  const Quote := "\""

  /** The columns the clean-up touches, in the order it visits them. */
  const FieldsToStrip := ["meta_description", "seo_title"]

  /** `value.startswith('"') and value.endswith('"')`; a lone `"` is both. */
  predicate QuoteWrapped(s: string)
  {
    StartsWith(s, Quote) && EndsWith(s, Quote)
  }

  /** `conditional_strip`: a quote-wrapped string loses its first and last
      character (`value[1:-1]`); every other value is returned as it is. */
  function ConditionalStrip(v: Cell): (r: Cell)
    ensures v.Str? && QuoteWrapped(v.s) ==> r.Str? && |r.s| == Max(0, |v.s| - 2)
    ensures v.Str? && QuoteWrapped(v.s) && |v.s| >= 2 ==> Quote + r.s + Quote == v.s
    ensures !(v.Str? && QuoteWrapped(v.s)) ==> r == v
  {
    match v
    case Str(s) =>
      if StartsWith(s, Quote) && EndsWith(s, Quote) then
        InnerSlice(s);
        Str(PySlice(s, 1, -1))
      else v
    case _ => v
  }

  /** Wrapping any string in quotes and stripping gives the string back. */
  lemma StripUnwraps(t: string)
    ensures ConditionalStrip(Str(Quote + t + Quote)) == Str(t)
  {
    var w := Quote + t + Quote;
    assert w[..1] == Quote && w[|w| - 1..] == Quote;
    assert w[1..|w| - 1] == t;
  }

  /** A lone quote character counts as wrapped and becomes the empty string. */
  lemma LoneQuoteVanishes()
    ensures ConditionalStrip(Str(Quote)) == Str("")
  {
    assert QuoteWrapped(Quote);
  }

  /** Only one pair is removed per call: `""a""` becomes `"a"`, which a second
      call strips again. */
  lemma OnePairPerCall()
    ensures ConditionalStrip(Str("\"\"a\"\"")) == Str("\"a\"")
    ensures ConditionalStrip(ConditionalStrip(Str("\"\"a\"\""))) != ConditionalStrip(Str("\"\"a\"\""))
  {
    StripUnwraps("\"a\"");
    assert Quote + "\"a\"" + Quote == "\"\"a\"\"";
    StripUnwraps("a");
    assert Quote + "a" + Quote == "\"a\"";
  }

  /** A second application changes nothing exactly when the first result is
      not quote-wrapped. */
  lemma SecondApplication(v: Cell)
    ensures var r := ConditionalStrip(v);
      ConditionalStrip(r) == r <==> !(r.Str? && QuoteWrapped(r.s))
  {
    var r := ConditionalStrip(v);
    if r.Str? && QuoteWrapped(r.s) {
      assert |ConditionalStrip(r).s| < |r.s|;
    }
  }

  /** `df[field].apply(conditional_strip)`. */
  function StripColumn(column: seq<Cell>): (r: seq<Cell>)
    ensures |r| == |column|
    ensures forall i :: 0 <= i < |column| ==> r[i] == ConditionalStrip(column[i])
  {
    seq(|column|, i requires 0 <= i < |column| => ConditionalStrip(column[i]))
  }

  /** Cleaning a column twice is the same as once exactly when no cell the
      first pass leaves is still quote-wrapped. */
  lemma StripColumnTwice(column: seq<Cell>)
    ensures StripColumn(StripColumn(column)) == StripColumn(column) <==>
      forall i :: 0 <= i < |column| ==> !(StripColumn(column)[i].Str? && QuoteWrapped(StripColumn(column)[i].s))
  {
    var once := StripColumn(column);
    forall i | 0 <= i < |column|
      ensures StripColumn(once)[i] == once[i] <==> !(once[i].Str? && QuoteWrapped(once[i].s))
    {
      SecondApplication(column[i]);
    }
    if StripColumn(once) != once {
      var i :| 0 <= i < |column| && StripColumn(once)[i] != once[i];
    }
  }

  /** The warning printed for a field the table does not have. */
  function MissingWarning(field: string): string
  {
    "Warning: '" + field + "' does not exist in the DataFrame."
  }

  /** The warnings for the fields of `fields` missing from `columns`, in order. */
  function MissingWarnings(columns: map<string, seq<Cell>>, fields: seq<string>): seq<string>
  {
    if fields == [] then []
    else
      MissingWarnings(columns, fields[..|fields| - 1])
      + (if fields[|fields| - 1] in columns then [] else [MissingWarning(fields[|fields| - 1])])
  }

  /** No warning is given when the table has both fields, one per missing
      field otherwise. */
  lemma {:induction false} WarningCount(columns: map<string, seq<Cell>>, fields: seq<string>)
    ensures |MissingWarnings(columns, fields)| <= |fields|
    ensures MissingWarnings(columns, fields) == [] <==> forall k :: 0 <= k < |fields| ==> fields[k] in columns
  {
    if fields != [] {
      var init := fields[..|fields| - 1];
      WarningCount(columns, init);
      assert forall k :: 0 <= k < |init| ==> init[k] == fields[k];
    }
  }

  /** The table being cleaned: its columns by name. */
  class Frame {
    var columns: map<string, seq<Cell>>

    constructor (columns: map<string, seq<Cell>>)
      ensures this.columns == columns
    {
      this.columns := columns;
    }

    /** The loop over `fields_to_strip`: each listed column that exists is
        replaced by its cleaned copy, each one that does not gives a warning;
        no other column changes and no column is added or dropped. */
    method StripQuotedFields() returns (warnings: seq<string>)
      modifies this
      ensures columns.Keys == old(columns).Keys
      ensures forall f :: f in columns && f in FieldsToStrip ==> columns[f] == StripColumn(old(columns)[f])
      ensures forall f :: f in columns && f !in FieldsToStrip ==> columns[f] == old(columns)[f]
      ensures warnings == MissingWarnings(old(columns), FieldsToStrip)
    {
      warnings := [];
      for i := 0 to |FieldsToStrip|
        invariant columns.Keys == old(columns).Keys
        invariant forall f :: f in columns && f in FieldsToStrip[..i] ==> columns[f] == StripColumn(old(columns)[f])
        invariant forall f :: f in columns && f !in FieldsToStrip[..i] ==> columns[f] == old(columns)[f]
        invariant warnings == MissingWarnings(old(columns), FieldsToStrip[..i])
      {
        var field := FieldsToStrip[i];
        assert FieldsToStrip[..i + 1] == FieldsToStrip[..i] + [field];
        if field in columns {
          columns := columns[field := StripColumn(columns[field])];
        } else {
          warnings := warnings + [MissingWarning(field)];
        }
      }
      assert FieldsToStrip[..|FieldsToStrip|] == FieldsToStrip;
    }
  }
}
