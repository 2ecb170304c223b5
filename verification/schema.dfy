/**
 * The parts of the database schema (src/server/db/schema.ts) that the import
 * flow relies on: the two string enumerations and the shapes of the rows it
 * reads or writes. The ORM table declarations themselves are not modelled.
 */
module Schema {
  import opened Wrappers

  /** The values of the `class` enumeration, in declaration order. */
  const CLASS_VALUES: seq<string> := [
    "warrior", "mage", "rogue", "hunter", "priest", "deathknight", "shaman",
    "warlock", "druid", "demonhunter", "monk", "evoker", "paladin"
  ]

  /** The values of the `role` enumeration, in declaration order. */
  const ROLE_VALUES: seq<string> := ["tank", "healer", "dps"]

  /** A string the database accepts in a `class` column. */
  type CharacterClass = s: string | s in CLASS_VALUES witness "warrior"

  /** A string the database accepts as a character role. */
  type CharacterRole = s: string | s in ROLE_VALUES witness "dps"

  /** Instants are milliseconds since the epoch, as `Date.valueOf()` gives them. */
  type Timestamp = int

  /** A row of the `account` table: an identity-provider link of one user. */
  datatype Account = Account(
    id: string,
    accountId: string,
    providerId: string,
    userId: string,
    accessToken: Option<string>,
    refreshToken: Option<string>,
    accessTokenExpiresAt: Option<Timestamp>)

  /** A row of the `account_label` table: a user's name for a game account. */
  datatype AccountLabel = AccountLabel(
    id: string,
    accountId: int,
    labelText: Option<string>,  // the source column `label`
    userId: string)

  /**
   * The values inserted into the `character` table; `id` is left to the
   * database default and is therefore absent.
   */
  datatype CharacterInsert = CharacterInsert(
    wowId: int,
    name: string,
    realm: string,
    mainRole: CharacterRole,
    characterClass: Option<CharacterClass>,
    level: int,
    render: Option<string>,
    avatar: Option<string>,
    userId: string,
    createdAt: Timestamp,
    updatedAt: Timestamp)

  /** The thirteen class values are pairwise distinct. */
  lemma ClassValuesDistinct()
    ensures |CLASS_VALUES| == 13
    ensures forall i, j :: 0 <= i < j < |CLASS_VALUES| ==> CLASS_VALUES[i] != CLASS_VALUES[j]
  {
  }
}
