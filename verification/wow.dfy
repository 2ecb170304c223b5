/**
 * The class table of src/utils/wow.ts: the game's numeric class ids 1..13,
 * each with its display colour, its class name and its text-colour CSS class,
 * and the three lookups built on it.
 */
module Wow {
  import opened Wrappers
  import Schema

  /** One entry of the table; `className` is the source's `class` field. */
  datatype ClassStyle = ClassStyle(hex: string, className: string, tailwindText: string)

  /**
   * `classColors[id]`: the table is a constant record keyed by class id; a key
   * it does not hold gives no entry.
   */
  function ClassColors(id: int): (r: Option<ClassStyle>)
    ensures r.Some? <==> 1 <= id <= 13
  {
    match id
    case 1 => Some(ClassStyle("#C69B6D", "warrior", "text-warrior"))
    case 2 => Some(ClassStyle("#F48CBA", "paladin", "text-paladin"))
    case 3 => Some(ClassStyle("#AAD372", "hunter", "text-hunter"))
    case 4 => Some(ClassStyle("#FFF468", "rogue", "text-rogue"))
    case 5 => Some(ClassStyle("#FFFFFF", "priest", "text-priest"))
    case 6 => Some(ClassStyle("#C41E3A", "deathknight", "text-deathknight"))
    case 7 => Some(ClassStyle("#0070DD", "shaman", "text-shaman"))
    case 8 => Some(ClassStyle("#3FC7EB", "mage", "text-mage"))
    case 9 => Some(ClassStyle("#8788EE", "warlock", "text-warlock"))
    case 10 => Some(ClassStyle("#00FF98", "monk", "text-monk"))
    case 11 => Some(ClassStyle("#FF7C0A", "druid", "text-druid"))
    case 12 => Some(ClassStyle("#A330C9", "demonhunter", "text-demonhunter"))
    case 13 => Some(ClassStyle("#33937F", "evoker", "text-evoker"))
    case _ => None
  }

  /** The colour returned for an id outside 1..13. */
  const NO_COLOR: string := "#000000"

  const HEX_DIGITS: string := "0123456789ABCDEF"

  /** `#` followed by six upper-case hexadecimal digits. */
  predicate IsHexColor(s: string) {
    |s| == 7 && s[0] == '#' && forall i :: 1 <= i < 7 ==> s[i] in HEX_DIGITS
  }

  /** Every entry's CSS class is `text-` followed by its class name. */
  lemma TailwindTextIsClassName(id: int)
    requires 1 <= id <= 13
    ensures ClassColors(id).value.tailwindText == "text-" + ClassColors(id).value.className
  {
    match id
    case 1 => case 2 => case 3 => case 4 => case 5 => case 6 => case 7 =>
    case 8 => case 9 => case 10 => case 11 => case 12 => case 13 =>
  }

  /** Every class name in the table is a value of the `class` enumeration. */
  lemma ClassNameIsClassValue(id: int)
    requires 1 <= id <= 13
    ensures ClassColors(id).value.className in Schema.CLASS_VALUES
  {
    if id <= 4 {
    } else if id <= 8 {
    } else {
    }
  }

  /** getClassColorHex: the sentinel outside 1..13, the table's colour inside. */
  function ClassColorHex(id: int): (r: Option<string>)
    ensures id < 1 || id > 13 ==> r == Some(NO_COLOR)
    ensures 1 <= id <= 13 ==> r == Some(ClassColors(id).value.hex)
    ensures r.Some? && IsHexColor(r.value)
  {
    if id > 13 || id < 1 then Some(NO_COLOR)
    else match ClassColors(id)
      case Some(style) => Some(style.hex)
      case None => None
  }

  /** getClassFromId: the class name of a known id, absent for any other id. */
  function ClassFromId(id: int): (r: Option<string>)
    ensures r.Some? <==> 1 <= id <= 13
    ensures r.Some? ==> r.value in Schema.CLASS_VALUES
    ensures r.Some? ==> ClassColors(id).value.tailwindText == "text-" + r.value
  {
    match ClassColors(id)
    case Some(style) =>
      ClassNameIsClassValue(id);
      TailwindTextIsClassName(id);
      Some(style.className)
    case None => None
  }

  /** getClassColorClass: agrees with getClassFromId on every id. */
  function ClassColorClass(id: int): (r: Option<string>)
    ensures r == ClassFromId(id)
    ensures r.None? <==> ClassColors(id).None?
  {
    match ClassColors(id)
    case Some(style) => Some(style.className)
    case None => None
  }

  /** The id the table gives a database class value: the inverse of ClassFromId. */
  function ClassIdOf(c: Schema.CharacterClass): (id: int)
    ensures 1 <= id <= 13
    ensures ClassFromId(id) == Some(c)
  {
    if c == "warrior" then 1
    else if c == "paladin" then 2
    else if c == "hunter" then 3
    else if c == "rogue" then 4
    else if c == "priest" then 5
    else if c == "deathknight" then 6
    else if c == "shaman" then 7
    else if c == "mage" then 8
    else if c == "warlock" then 9
    else if c == "monk" then 10
    else if c == "druid" then 11
    else if c == "demonhunter" then 12
    else 13
  }

  /** Distinct ids have distinct class names, so ClassIdOf undoes ClassFromId. */
  lemma ClassFromIdInjective(i: int, j: int)
    requires ClassFromId(i).Some? && ClassFromId(i) == ClassFromId(j)
    ensures i == j
    ensures ClassIdOf(ClassFromId(i).value) == i
  {
  }

  /** The table and the `class` enumeration name the same thirteen classes. */
  lemma TableMatchesClassEnum()
    ensures forall c :: c in Schema.CLASS_VALUES <==>
      exists id :: 1 <= id <= 13 && ClassFromId(id) == Some(c)
  {
    forall c | c in Schema.CLASS_VALUES
      ensures exists id :: 1 <= id <= 13 && ClassFromId(id) == Some(c)
    {
      var id := ClassIdOf(c);
      assert ClassFromId(id) == Some(c);
    }
  }

  /** The examples the application relies on: 2 is paladin; 0 and 14 are unknown. */
  lemma KnownIds()
    ensures ClassFromId(2) == Some("paladin")
    ensures ClassFromId(0).None? && ClassFromId(14).None?
    ensures ClassColorHex(0) == Some(NO_COLOR) && ClassColorHex(14) == Some(NO_COLOR)
  {
  }
}
