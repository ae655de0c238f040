/** Values shared by the record store, the index manager and the query engine. */
module Types {

  datatype Option<+T> = None | Some(value: T)

  /** The six recognised column names; `Stb` is the entity (set-top-box) id. */
  datatype Column = Stb | Date | Title | Provider | Rev | Time

  /** The columns that have an index file, in the order `create_indices` writes them. */
  const IndexedColumns: seq<Column> := [Date, Title, Provider, Rev, Time]

  /** The name of a column as it appears in dictionaries and file names. */
  function ColumnName(c: Column): string
  {
    match c
    case Stb => "stb"
    case Date => "date"
    case Title => "title"
    case Provider => "provider"
    case Rev => "rev"
    case Time => "time"
  }

  /**
   * One event with all six fields: both the dictionary handed to `add_data`
   * and a flattened row built by `get_data_matching_filter`.
   */
  datatype Record = Record(stb: string, date: string, title: string,
                           provider: string, rev: string, time: string)
  {
    /** `entry[c]` */
    function Get(c: Column): string
    {
      match c
      case Stb => stb
      case Date => date
      case Title => title
      case Provider => provider
      case Rev => rev
      case Time => time
    }
  }

  /** The value stored under one (date, title) slot of an entity document. */
  datatype Slot = Slot(rev: string, time: string, provider: string)

  /** A row after projection: a dictionary restricted to the selected columns. */
  type Row = map<Column, string>

  /** The exceptions the core lets escape, each one a distinct way a query fails. */
  datatype Error =
    | MissingIndex(column: Column)   // the index file of a filter column does not exist
    | MissingDoc(id: string)         // a candidate entity has no document
    | MissingKey(column: Column)     // an order column is not among the selected keys

  datatype Result<+T> = Ok(value: T) | Err(error: Error)
}
