/**
 * The server actions of src/server/actions/sync-characters.ts: the status
 * decision before the roster is fetched, and the construction of one database
 * record per selected character. The clock is the parameter `now`; the game
 * provider is a function from the request it receives to its response.
 */
module SyncCharacters {
  import opened Wrappers
  import opened Schema
  import opened WowCharacters
  import Wow

  // ---------------------------------------------------------------------------
  // getCharacters
  // ---------------------------------------------------------------------------

  /** The statuses reported to the page, `OK` with the provider's roster. */
  datatype CharacterResponse =
    | SessionNotFound
    | AccountNotFound
    | TokenExpired
    | Ok(characters: WowCharacterResponse)

  /** An authenticated request for the user's game profile. */
  datatype ProfileRequest = ProfileRequest(url: string, authorization: string)

  const PROFILE_URL: string :=
    "https://eu.api.blizzard.com/profile/user/wow?region=eu&namespace=profile-eu&locale=en_US"

  /** The status returned, and the request sent to the provider if one was sent. */
  datatype CharactersCall = CharactersCall(response: CharacterResponse, request: Option<ProfileRequest>)

  /**
   * The account is unusable: there is none, or it lacks an access token (an
   * empty token counts as none) or an expiry.
   */
  predicate MissingCredentials(account: Option<Account>)
    ensures !MissingCredentials(account) ==>
      && account.Some?
      && account.value.accessToken.Some? && |account.value.accessToken.value| > 0
      && account.value.accessTokenExpiresAt.Some?
    ensures account.Some? && account.value.accessTokenExpiresAt.None? ==> MissingCredentials(account)
  {
    || account.None?
    || account.value.accessToken.None?
    || account.value.accessToken.value == ""
    || account.value.accessTokenExpiresAt.None?
  }

  /**
   * getCharacters for the battle.net account found for the user (`account`)
   * at the instant `now`.
   */
  function GetCharacters(account: Option<Account>, now: Timestamp,
                         provider: ProfileRequest -> WowCharacterResponse): (r: CharactersCall)
    ensures r.response == AccountNotFound <==> MissingCredentials(account)
    ensures r.response == TokenExpired <==>
      !MissingCredentials(account) && account.value.accessTokenExpiresAt.value < now
    ensures r.response.Ok? <==>
      !MissingCredentials(account) && now <= account.value.accessTokenExpiresAt.value
    ensures !r.response.SessionNotFound?
    ensures r.request.Some? <==> r.response.Ok?
    ensures r.response.Ok? ==>
      && r.request.value == ProfileRequest(PROFILE_URL, "Bearer " + account.value.accessToken.value)
      && r.response.characters == provider(r.request.value)
  {
    if MissingCredentials(account) then CharactersCall(AccountNotFound, None)
    else if account.value.accessTokenExpiresAt.value < now then CharactersCall(TokenExpired, None)
    else
      var request := ProfileRequest(PROFILE_URL, "Bearer " + account.value.accessToken.value);
      CharactersCall(Ok(provider(request)), Some(request))
  }

  // ---------------------------------------------------------------------------
  // importCharacters
  // ---------------------------------------------------------------------------

  datatype Asset = Asset(key: string, value: string)

  datatype MediaCharacter = MediaCharacter(name: string, id: int)

  /** The provider's character-media response. */
  datatype CharacterMedia = CharacterMedia(character: MediaCharacter, assets: seq<Asset>)

  const RENDER_KEY: string := "main-raw"
  const AVATAR_KEY: string := "avatar"
  const DEFAULT_ROLE: CharacterRole := "dps"

  /** `k` is the position of the first asset with key `key`. */
  predicate FirstAssetWith(assets: seq<Asset>, key: string, k: int)
  {
    0 <= k < |assets| && assets[k].key == key
    && forall j :: 0 <= j < k ==> assets[j].key != key
  }

  /** The value of the first asset with the given key, if any (the lookups at lines 65-66). */
  function FindAsset(assets: seq<Asset>, key: string): (r: Option<string>)
    ensures r.None? <==> forall j :: 0 <= j < |assets| ==> assets[j].key != key
    ensures forall k :: FirstAssetWith(assets, key, k) ==> r == Some(assets[k].value)
  {
    if assets == [] then None
    else if assets[0].key == key then Some(assets[0].value)
    else
      var r := FindAsset(assets[1..], key);
      assert forall k :: FirstAssetWith(assets, key, k) ==> FirstAssetWith(assets[1..], key, k - 1);
      r
  }

  const MEDIA_PREFIX: string := "https://eu.api.blizzard.com/profile/user/wow/"
  const MEDIA_SUFFIX: string := "/character-media"

  /** The character-media address: it names the realm by its slug, then the character by its name. */
  function MediaUrl(c: Character): (r: string)
    ensures |r| == |MEDIA_PREFIX| + |c.realm.slug| + 1 + |c.name| + |MEDIA_SUFFIX|
    ensures r[..|MEDIA_PREFIX|] == MEDIA_PREFIX
    ensures r[|MEDIA_PREFIX|..|r| - |MEDIA_SUFFIX|] == c.realm.slug + "/" + c.name
    ensures r[|r| - |MEDIA_SUFFIX|..] == MEDIA_SUFFIX
  {
    MEDIA_PREFIX + c.realm.slug + "/" + c.name + MEDIA_SUFFIX
  }

  /** The position of the first slash in `s`, or `|s|` when there is none. */
  function SlashIndex(s: string): (k: nat)
    ensures k <= |s|
  {
    if s == [] || s[0] == '/' then 0 else 1 + SlashIndex(s[1..])
  }

  lemma {:induction false} SlashIndexAfter(s: string, n: string)
    requires '/' !in s
    ensures SlashIndex(s + "/" + n) == |s|
  {
    if s == [] {
      assert s + "/" + n == "/" + n;
    } else {
      assert (s + "/" + n)[1..] == s[1..] + "/" + n;
      assert s[0] in s;
      SlashIndexAfter(s[1..], n);
    }
  }

  /** A slug without a slash is recovered from `slug/name`, and so is the name. */
  lemma SplitAtSlash(s1: string, n1: string, s2: string, n2: string)
    requires '/' !in s1 && '/' !in s2
    requires s1 + "/" + n1 == s2 + "/" + n2
    ensures s1 == s2 && n1 == n2
  {
    var m := s1 + "/" + n1;
    SlashIndexAfter(s1, n1);
    SlashIndexAfter(s2, n2);
    assert s1 == m[..|s1|] == s2;
    assert n1 == m[|s1| + 1..] == n2;
  }

  /**
   * Realm slugs carry no slash, so the media address identifies the realm
   * slug and the character name it was built from.
   */
  lemma MediaUrlIdentifiesCharacter(c1: Character, c2: Character)
    requires '/' !in c1.realm.slug && '/' !in c2.realm.slug
    requires MediaUrl(c1) == MediaUrl(c2)
    ensures c1.realm.slug == c2.realm.slug && c1.name == c2.name
  {
    SplitAtSlash(c1.realm.slug, c1.name, c2.realm.slug, c2.name);
  }

  /** The database class of a provider class id; the cast relies on every table class being a `class` value. */
  function ClassOf(classId: int): (r: Option<CharacterClass>)
    ensures r.Some? <==> 1 <= classId <= 13
    ensures r.Some? ==> Wow.ClassIdOf(r.value) == classId
  {
    match Wow.ClassFromId(classId)
    case None => None
    case Some(name) =>
      Wow.ClassFromIdInjective(classId, Wow.ClassIdOf(name));
      Some(name)
  }

  /** The record built for one selected character and its media. */
  function BuildRecord(c: Character, media: CharacterMedia, userId: string, now: Timestamp): (r: CharacterInsert)
    ensures r.name == c.name && r.level == c.level && r.wowId == c.id
    ensures r.realm == c.realm.name
    ensures r.mainRole == "dps"
    ensures r.userId == userId
    ensures r.characterClass == ClassOf(c.playableClass.id)
    ensures r.render.Some? <==> exists k :: FirstAssetWith(media.assets, RENDER_KEY, k)
    ensures r.avatar.Some? <==> exists k :: FirstAssetWith(media.assets, AVATAR_KEY, k)
    ensures forall k :: FirstAssetWith(media.assets, RENDER_KEY, k) ==> r.render == Some(media.assets[k].value)
    ensures forall k :: FirstAssetWith(media.assets, AVATAR_KEY, k) ==> r.avatar == Some(media.assets[k].value)
    ensures r.createdAt == now && r.updatedAt == now
  {
    FirstAssetExists(media.assets, RENDER_KEY);
    FirstAssetExists(media.assets, AVATAR_KEY);
    CharacterInsert(
      wowId := c.id,
      name := c.name,
      realm := c.realm.name,
      mainRole := DEFAULT_ROLE,
      characterClass := ClassOf(c.playableClass.id),
      level := c.level,
      render := FindAsset(media.assets, RENDER_KEY),
      avatar := FindAsset(media.assets, AVATAR_KEY),
      userId := userId,
      createdAt := now,
      updatedAt := now)
  }

  /** An asset with the key exists exactly when a first one does. */
  lemma {:induction false} FirstAssetExists(assets: seq<Asset>, key: string)
    ensures (exists j :: 0 <= j < |assets| && assets[j].key == key) <==> exists k :: FirstAssetWith(assets, key, k)
  {
    if exists j :: 0 <= j < |assets| && assets[j].key == key {
      if assets[0].key == key {
        assert FirstAssetWith(assets, key, 0);
      } else {
        var j :| 0 <= j < |assets| && assets[j].key == key;
        assert assets[1..][j - 1].key == key;
        FirstAssetExists(assets[1..], key);
        var k :| FirstAssetWith(assets[1..], key, k);
        assert FirstAssetWith(assets, key, k + 1);
      }
    }
  }

  /** What `ratelimit.limit(...)` yields: a promise of the limiter's verdict, or the awaited verdict. */
  datatype LimitValue = PendingVerdict(allowed: bool) | Verdict(allowed: bool)

  /** JavaScript truthiness of that value: a promise object is always truthy. */
  predicate Truthy(v: LimitValue)
  {
    match v
    case PendingVerdict(_) => true
    case Verdict(allowed) => allowed
  }

  const BACKOFF_MS: nat := 1000

  /** The wait before a media request: one second when the limiter result is falsy, none otherwise (line 55). */
  function DelayFor(success: LimitValue): (ms: nat)
    ensures ms == 0 || ms == BACKOFF_MS
    ensures ms == BACKOFF_MS <==> !Truthy(success)
    ensures success.PendingVerdict? ==> ms == 0
  {
    if !Truthy(success) then BACKOFF_MS else 0
  }

  /** The delay as written: `success` is the unawaited promise, so no delay ever happens. */
  function BackoffAsWritten(allowed: bool): (ms: nat)
    ensures ms == 0
  {
    DelayFor(PendingVerdict(allowed))
  }

  /** The delay once the verdict is awaited: a rejected call waits one second. */
  function Backoff(allowed: bool): (ms: nat)
    ensures ms == 0 <==> allowed
    ensures !allowed ==> ms == 1000
  {
    DelayFor(Verdict(allowed))
  }

  /** A rejected call gets a delay only once the verdict is awaited. */
  lemma RejectedCallIsNotDelayed()
    ensures BackoffAsWritten(false) == 0 && Backoff(false) == BACKOFF_MS
  {
  }

  /**
   * importCharacters, taken sequentially: for each selected character in
   * turn, wait out the limiter, request its media, build its record and
   * append it; the accumulated batch is what the one bulk insert writes.
   * `allowed(i)` is the limiter's verdict on the i-th call.
   */
  method ImportCharacters(characters: seq<Character>, userId: string, now: Timestamp,
                          allowed: nat -> bool, fetchMedia: string -> CharacterMedia)
    returns (batch: seq<CharacterInsert>, mediaRequests: seq<string>, delays: seq<nat>)
    ensures |batch| == |characters| && |mediaRequests| == |characters| && |delays| == |characters|
    ensures forall i :: 0 <= i < |characters| ==> mediaRequests[i] == MediaUrl(characters[i])
    ensures forall i :: 0 <= i < |characters| ==> delays[i] == Backoff(allowed(i))
    ensures forall i :: 0 <= i < |characters| ==>
      batch[i] == BuildRecord(characters[i], fetchMedia(MediaUrl(characters[i])), userId, now)
  {
    batch, mediaRequests, delays := [], [], [];
    var i := 0;
    while i < |characters|
      invariant 0 <= i <= |characters|
      invariant |batch| == i && |mediaRequests| == i && |delays| == i
      invariant forall j :: 0 <= j < i ==> mediaRequests[j] == MediaUrl(characters[j])
      invariant forall j :: 0 <= j < i ==> delays[j] == Backoff(allowed(j))
      invariant forall j :: 0 <= j < i ==>
        batch[j] == BuildRecord(characters[j], fetchMedia(MediaUrl(characters[j])), userId, now)
    {
      var c := characters[i];
      delays := delays + [Backoff(allowed(i))];
      var url := MediaUrl(c);
      mediaRequests := mediaRequests + [url];
      var media := fetchMedia(url);
      batch := batch + [BuildRecord(c, media, userId, now)];
      i := i + 1;
    }
  }
}
