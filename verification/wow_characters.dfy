/**
 * The shapes of the game provider's profile responses
 * (src/models/WowCharacters.ts). They carry no logic.
 */
module WowCharacters {
  datatype Link = Link(href: string)

  datatype RealmRef = RealmRef(key: Link, name: string, id: int, slug: string)

  /** A reference to a playable class or race. */
  datatype NamedRef = NamedRef(key: Link, name: string, id: int)

  /** Gender and faction: a type tag and a display name. */
  datatype TypedName = TypedName(kind: string, name: string)

  datatype Character = Character(
    character: Link,
    protectedCharacter: Link,
    name: string,
    id: int,
    realm: RealmRef,
    playableClass: NamedRef,
    playableRace: NamedRef,
    gender: TypedName,
    faction: TypedName,
    level: int)

  datatype WowAccountResponse = WowAccountResponse(id: int, characters: seq<Character>)

  datatype WowCharacterResponse = WowCharacterResponse(id: int, wowAccounts: seq<WowAccountResponse>)
}
