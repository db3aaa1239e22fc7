/**
 * Loading the uploaded sheet: the first record is a banner and is dropped,
 * the second supplies the column names, and every column name is stripped
 * of surrounding whitespace and then title-cased.
 */
module Header {
  import opened Text

  datatype Option<T> = None | Some(value: T)

  /** One column name as the loader normalises it: strip, then title-case. */
  function NormalizeHeader(h: string): (r: string)
    ensures NoOuterSpace(r)
    ensures Lower(r) == Lower(Strip(h))
    ensures TitleCase(r) == r
  {
    var stripped := Strip(h);
    TitleCaseKeepsTrimmed(stripped);
    TitleCaseLower(stripped);
    TitleCaseIdempotent(stripped);
    TitleCase(stripped)
  }

  /** The three properties of `NormalizeHeader` pin its result down completely. */
  lemma NormalizeHeaderUnique(h: string, r: string)
    requires TitleCase(r) == r && Lower(r) == Lower(Strip(h))
    ensures r == NormalizeHeader(h)
  {
    TitleCaseEqualIff(r, Strip(h));
  }

  /** Every column of the sheet, in order. */
  function NormalizeHeaders(columns: seq<string>): (r: seq<string>)
    ensures |r| == |columns|
    ensures forall i :: 0 <= i < |r| ==>
      NoOuterSpace(r[i]) && TitleCase(r[i]) == r[i] && Lower(r[i]) == Lower(Strip(columns[i]))
  {
    seq(|columns|, i requires 0 <= i < |columns| => NormalizeHeader(columns[i]))
  }

  lemma NormalizeHeaderIdempotent(h: string)
    ensures NormalizeHeader(NormalizeHeader(h)) == NormalizeHeader(h)
  {
    var r := NormalizeHeader(h);
    StripKeepsTrimmed(r);
    NormalizeHeaderUnique(r, r);
  }

  /** Normalising names that are already normalised changes nothing. */
  lemma NormalizeHeadersIdempotent(columns: seq<string>)
    ensures NormalizeHeaders(NormalizeHeaders(columns)) == NormalizeHeaders(columns)
  {
    var once := NormalizeHeaders(columns);
    forall i | 0 <= i < |columns| ensures NormalizeHeaders(once)[i] == once[i] {
      NormalizeHeaderIdempotent(columns[i]);
    }
  }

  /**
   * A column is found under a normalised name regardless of the case and the
   * surrounding whitespace it was uploaded with: two raw names normalise alike
   * exactly when they are equal up to case once stripped.
   */
  lemma SameNormalForm(a: string, b: string)
    ensures NormalizeHeader(a) == NormalizeHeader(b) <==> Lower(Strip(a)) == Lower(Strip(b))
  {
    if Lower(Strip(a)) == Lower(Strip(b)) {
      NormalizeHeaderUnique(b, NormalizeHeader(a));
    }
  }

  lemma NormalizeHeaderExample()
    ensures NormalizeHeader(" company ") == "Company"
  {
    StripExample();
    CompanyIsTitled();
    CompanyLower();
    NormalizeHeaderUnique(" company ", "Company");
  }

  lemma CompanyLower()
    ensures Lower("Company") == Lower("company")
  {
  }

  lemma CompanyIsTitled()
    ensures TitleCase("Company") == "Company"
  {
    forall i | 0 <= i < 7 ensures TitleCase("Company")[i] == "Company"[i] {
      TitleCaseAt("Company", i);
    }
  }

  /** A sheet after loading: the normalised column names and the data records below them. */
  datatype Frame = Frame(columns: seq<string>, records: seq<seq<string>>)

  /**
   * Reading the sheet with its header on the second record. Fewer than two
   * records is a read failure; otherwise the first record is dropped, the
   * second gives the columns and the rest are the data, in order.
   */
  function ReadWithHeaderRow(lines: seq<seq<string>>): (r: Option<Frame>)
    ensures r.None? <==> |lines| < 2
    ensures r.Some? ==> r.value.records == lines[2..]
    ensures r.Some? ==> |r.value.columns| == |lines[1]|
    ensures r.Some? ==> forall i :: 0 <= i < |lines[1]| ==>
      NoOuterSpace(r.value.columns[i]) && TitleCase(r.value.columns[i]) == r.value.columns[i]
      && Lower(r.value.columns[i]) == Lower(Strip(lines[1][i]))
  {
    if |lines| < 2 then None
    else Some(Frame(NormalizeHeaders(lines[1]), lines[2..]))
  }
}
