/** The value held by one cell of the board: Empty or one of the nine digits. */
module SudokuValues {

  datatype SudokuValue = Empty | One | Two | Three | Four | Five | Six | Seven | Eight | Nine

  /** The numeral a value stands for (0 for Empty); used to state the order of the digits. */
  function Ordinal(v: SudokuValue): (n: nat)
    ensures n <= 9
    ensures n == 0 <==> v == Empty
  {
    match v
    case Empty => 0
    case One => 1
    case Two => 2
    case Three => 3
    case Four => 4
    case Five => 5
    case Six => 6
    case Seven => 7
    case Eight => 8
    case Nine => 9
  }

  /** Two values with the same numeral are the same value. */
  lemma OrdinalInjective(v: SudokuValue, w: SudokuValue)
    ensures Ordinal(v) == Ordinal(w) ==> v == w
  {
  }

  /** Decodes one character: '1'..'9' give the matching digit, every other character is Empty. */
  function FromDigit(c: char): (v: SudokuValue)
    ensures v != Empty <==> '1' <= c <= '9'
    ensures v != Empty ==> Ordinal(v) == c as int - '0' as int
  {
    match c
    case '1' => One
    case '2' => Two
    case '3' => Three
    case '4' => Four
    case '5' => Five
    case '6' => Six
    case '7' => Seven
    case '8' => Eight
    case '9' => Nine
    case _ => Empty
  }

  /** The nine digits in ascending order; Empty is not among them. */
  function AllValues(): (r: seq<SudokuValue>)
    ensures |r| == 9
    ensures forall i :: 0 <= i < |r| ==> Ordinal(r[i]) == i + 1
    ensures forall v :: v in r <==> v != Empty
  {
    var r := [One, Two, Three, Four, Five, Six, Seven, Eight, Nine];
    forall v | v != Empty ensures v in r {
      assert r[Ordinal(v) - 1] == v;
    }
    r
  }

  /** The character a value is displayed as: its numeral, or '_' for Empty. */
  function Glyph(v: SudokuValue): char {
    match v
    case One => '1'
    case Two => '2'
    case Three => '3'
    case Four => '4'
    case Five => '5'
    case Six => '6'
    case Seven => '7'
    case Eight => '8'
    case Nine => '9'
    case Empty => '_'
  }

  /** The text a value is displayed as: the one character of its glyph. */
  function Display(v: SudokuValue): (s: string)
    ensures |s| == 1
  {
    [Glyph(v)]
  }

  /** A digit is shown as its numeral and Empty as "_"; decoding the character gives the value back. */
  lemma DisplayReadsBack(v: SudokuValue)
    ensures v == Empty ==> Display(v) == "_"
    ensures v != Empty ==> Display(v)[0] as int - '0' as int == Ordinal(v)
    ensures FromDigit(Display(v)[0]) == v
  {
  }

  /** Distinct values are displayed differently. */
  lemma DisplayInjective(v: SudokuValue, w: SudokuValue)
    ensures Display(v) == Display(w) ==> v == w
  {
    if Display(v) == Display(w) {
      DisplayReadsBack(v);
      DisplayReadsBack(w);
      assert FromDigit(Display(v)[0]) == FromDigit(Display(w)[0]);
    }
  }
}
