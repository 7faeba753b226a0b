/** Products and recipes as the application passes them around. */
module Kitchen {
  import opened Wrappers
  import opened Calendar

  /** A C++ `int` of 32 bits. */
  type Amount = a: int | -0x8000_0000 <= a < 0x8000_0000

  datatype Dimension = Gramm | Kilogramm | Milliliter | Liter | Piece

  /** The number a dimension is stored as, and ordered by. */
  function Code(d: Dimension): nat {
    match d
    case Gramm => 0
    case Kilogramm => 1
    case Milliliter => 2
    case Liter => 3
    case Piece => 4
  }

  datatype Dates = Dates(manufacture: Option<Day>, expiration: Option<Day>)

  const NO_DATES := Dates(None, None)

  datatype Product =
    Product(name: string, amount: Amount, dimension: Dimension, dates: Dates, id: Option<int>)

  datatype Recipe = Recipe(name: string, ingredients: seq<Product>, id: Option<int>)

  /** What identifies an ingredient or a stock entry: its name together with its dimension. */
  datatype Key = Key(name: string, dimension: Dimension)

  function KeyOf(p: Product): Key { Key(p.name, p.dimension) }
}
