/**
 * The level-file symbols: `reprToObjectType` reads one character of a
 * level, `objectTypeToRepr` renders an object type back as a character.
 */
module Symbols {
  import opened Grid

  /** The twelve characters a level may contain. */
  const KnownSymbols: set<char> := {' ', '#', '%', '*', '-', '$', '@', '<', '>', '^', 'v', '+'}

  /** The seven characters the solver loads; the arrows and the dispenser are not implemented. */
  const ImplementedSymbols: set<char> := {' ', '#', '%', '*', '-', '$', '@'}

  /** `reprToObjectType`: the switch over the level characters, UNKNOWN for all others. */
  function ReprToObjectType(c: char): (t: ObjectType)
    ensures t == Unknown <==> c !in KnownSymbols
    ensures t != Unimplemented
    ensures t.Ordinal() < Unimplemented.Ordinal() <==> c in ImplementedSymbols
  {
    match c
    case ' ' => Empty
    case '#' => Wall
    case '%' => Ice
    case '*' => Fire
    case '-' => Recycler
    case '$' => IceGold
    case '@' => Magician
    case '<' => ArLeft
    case '>' => ArRight
    case '^' => ArUp
    case 'v' => ArDown
    case '+' => Dispenser
    case _ => Unknown
  }

  /** The table `objectTypeToRepr` indexes by the enumerator's value, as written. */
  const ReprTable: string := " #%*-$@?<>^v+?"

  /**
   * `objectTypeToRepr`, as written: the arrows come out in the order `<>^v`.
   * The two placeholders render as '?', every other type as a level symbol.
   */
  function ObjectTypeToRepr(t: ObjectType): (c: char)
    ensures c == '?' <==> t == Unimplemented || t == Unknown
    ensures c != '?' ==> c in KnownSymbols
  {
    ReprTable[t.Ordinal()]
  }

  /** The table with the arrows in the order of the enumeration (UP, DOWN, LEFT, RIGHT). */
  const ReprTableFixed: string := " #%*-$@?^v<>+?"

  /** `objectTypeToRepr` over the corrected table, with the same guarantees as the one as written. */
  function ObjectTypeToReprFixed(t: ObjectType): (c: char)
    ensures c == '?' <==> t == Unimplemented || t == Unknown
    ensures c != '?' ==> c in KnownSymbols
  {
    ReprTableFixed[t.Ordinal()]
  }

  /** Rendering then reading gives back every type except the four arrows (and the two placeholders). */
  lemma ReprRoundTrip(t: ObjectType)
    requires t in {Empty, Wall, Ice, Fire, Recycler, IceGold, Magician, Dispenser}
    ensures ReprToObjectType(ObjectTypeToRepr(t)) == t
  {
  }

  /** The as-written table renders each arrow as a different arrow's character. */
  lemma ArrowReprMismatch()
    ensures ReprToObjectType(ObjectTypeToRepr(ArUp)) == ArLeft
    ensures ReprToObjectType(ObjectTypeToRepr(ArDown)) == ArRight
    ensures ReprToObjectType(ObjectTypeToRepr(ArLeft)) == ArUp
    ensures ReprToObjectType(ObjectTypeToRepr(ArRight)) == ArDown
  {
  }

  /**
   * With the corrected table the two mappings are inverse on the twelve
   * symbols: every readable type renders to a character that reads back as
   * it, and every known character reads as a type that renders back to it.
   */
  lemma ReprRoundTripFixed(t: ObjectType, c: char)
    ensures t != Unimplemented && t != Unknown ==> ReprToObjectType(ObjectTypeToReprFixed(t)) == t
    ensures c in KnownSymbols ==> ObjectTypeToReprFixed(ReprToObjectType(c)) == c
  {
  }
}
