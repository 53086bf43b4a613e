/**
  The dataset of postsecondary school locations: one record per school with
  its state code, its position and one identifier code per statistical
  column, where the code "N" means the school is not classified under that
  column.
 */
module Schools {

  /**
    The statistical columns the selector offers (Final.py:35). The program
    could index any column of the frame; restricting codes to these seven is
    a choice of this model.
   */
  datatype Column = Locale | Cbsa | Csa | Necta | Cd | Sldl | Sldu

  /** One row of the data frame. Latitude and longitude stand in for floats. */
  datatype Record = Record(
    state: string,
    lat: real,
    lon: real,
    locale: string,
    cbsa: string,
    csa: string,
    necta: string,
    cd: string,
    sldl: string,
    sldu: string)

  /** Why an operation of the dashboard has no answer. */
  datatype Error =
    | KeyError(key: string)         // a dictionary read of a key never written
    | UnknownColumn(name: string)   // a name outside the seven columns this model covers

  datatype Result<T> = Ok(value: T) | Err(error: Error)

  /** The code that marks a school as not classified under a column. */
  const Sentinel: string := "N"

  /** The column header, as in the data file. */
  function Name(c: Column): string {
    match c
    case Locale => "LOCALE"
    case Cbsa => "CBSA"
    case Csa => "CSA"
    case Necta => "NECTA"
    case Cd => "CD"
    case Sldl => "SLDL"
    case Sldu => "SLDU"
  }

  /** `STATISTICAL_QUERIES`, the names the column selector offers, in order. */
  const StatisticalQueries: seq<string> :=
    ["LOCALE", "CBSA", "CSA", "NECTA", "CD", "SLDL", "SLDU"]

  /** `row[column]`: the identifier code a school carries under a column. */
  function Code(r: Record, c: Column): string {
    match c
    case Locale => r.locale
    case Cbsa => r.cbsa
    case Csa => r.csa
    case Necta => r.necta
    case Cd => r.cd
    case Sldl => r.sldl
    case Sldu => r.sldu
  }

  /**
    The column a selector choice names. Only the names the selector offers
    resolve. Any other name is outside this model, whether or not the data
    frame has such a column.
   */
  function ColumnNamed(name: string): (r: Result<Column>)
    ensures r.Ok? <==> name in StatisticalQueries
    ensures r.Ok? ==> Name(r.value) == name
    ensures r.Err? ==> r.error == UnknownColumn(name)
  {
    if name == "LOCALE" then Ok(Locale)
    else if name == "CBSA" then Ok(Cbsa)
    else if name == "CSA" then Ok(Csa)
    else if name == "NECTA" then Ok(Necta)
    else if name == "CD" then Ok(Cd)
    else if name == "SLDL" then Ok(Sldl)
    else if name == "SLDU" then Ok(Sldu)
    else Err(UnknownColumn(name))
  }

  /** Every column is offered under its own name, and looking it up gives it back. */
  lemma ColumnNameRoundTrip(c: Column)
    ensures Name(c) in StatisticalQueries
    ensures ColumnNamed(Name(c)) == Ok(c)
  {
  }
}
