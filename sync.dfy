/**
 * The sync engine's bookkeeping: the remote document of the signed-in user,
 * the last remote version seen (kept under `firebase:lastRemoteVersion`), and
 * the local snapshot the callbacks read and replace. The network calls are
 * replaced by the `remote` field; the clock is a parameter.
 */
module Sync {

  import opened Wrappers
  import opened JsonData
  import opened Merging

  const LastRemoteVersionKey: string := "firebase:lastRemoteVersion"

  /** The document `users/{uid}/lifeweeks/state`. */
  datatype RemoteDoc = RemoteDoc(version: int, updatedAt: int, payload: Json)

  datatype SyncResult = Ok | NoRemote | NotSignedIn | Conflict

  /** `JSON.parse(s || "{}")`, falling back to `{}` when it throws. */
  function ParseOrEmpty(t: Text): Json {
    match t
    case Blank => JObject([])
    case Malformed => JObject([])
    case JsonText(j) => j
  }

  /** The compare-and-swap check of `pushSnapshot`. */
  predicate Conflicts(current: Option<RemoteDoc>, lastRemote: int, force: bool)
    ensures force || lastRemote == 0 || current.None? ==> !Conflicts(current, lastRemote, force)
    ensures current.Some? && current.value.version == lastRemote ==> !Conflicts(current, lastRemote, force)
  {
    current.Some? && lastRemote != 0 && current.value.version != lastRemote && !force
  }

  /** The value `pullAndMerge` hands to `applyMerged`: local merged over the remote payload. */
  function Pulled(payload: Json, local: Text): (r: Json)
    ensures Truthy(r)
    ensures local.Blank? || local.Malformed? ==> r == Merge(OrEmpty(payload), JObject([]))
  {
    MergeTruthy(OrEmpty(payload), OrEmpty(ParseOrEmpty(local)));
    Merge(OrEmpty(payload), OrEmpty(ParseOrEmpty(local)))
  }

  /**
   * A pull repeated while the remote document stays the same changes nothing
   * more, for a remote payload without repeated array elements and a local
   * snapshot as `JSON.parse` reads it.
   */
  lemma PullTwice(payload: Json, local: Text)
    requires Normal(OrEmpty(payload)) && Parsed(ParseOrEmpty(local))
    ensures Pulled(payload, JsonText(Pulled(payload, local))) == Pulled(payload, local)
  {
    var r, l := OrEmpty(payload), OrEmpty(ParseOrEmpty(local));
    MergeTruthy(r, l);
    MergeLeftAbsorb(r, l);
  }

  /**
   * The hypothesis on the payload is needed: a payload whose array repeats a
   * value is taken over as it is by the first pull and de-duplicated by the
   * second.
   */
  lemma PullTwiceNeedsNormal()
    ensures var p := JObject([("k", JArray([JNumber(1), JNumber(1)]))]);
      var first := Pulled(p, JsonText(JObject([])));
      first == p && Pulled(p, JsonText(first)) == JObject([("k", JArray([JNumber(1)]))])
  {
    var one := JNumber(1);
    var arr := JArray([one, one]);
    var p := JObject([("k", arr)]);
    assert Spread(p) == [("k", arr)];
    assert MergeFrom([("k", arr)], JObject([]), 0) == [("k", arr)];
    assert Pulled(p, JsonText(JObject([]))) == p;
    DedupOnes(one);
    assert Merge(arr, arr) == JArray([one]);
    assert Step([("k", arr)], "k", arr) == [("k", JArray([one]))];
    assert MergeFrom([("k", JArray([one]))], p, 1) == [("k", JArray([one]))];
  }

  /** A pull that first drops the repeats of the remote payload at every depth. */
  function PulledNormalised(payload: Json, local: Text): (r: Json)
    ensures Truthy(r)
  {
    var p := Normalise(OrEmpty(payload));
    MergeTruthy(p, OrEmpty(ParseOrEmpty(local)));
    Merge(p, OrEmpty(ParseOrEmpty(local)))
  }

  /** Normalising changes nothing for a payload that has no repeats. */
  lemma PulledNormalisedAgrees(payload: Json, local: Text)
    requires Normal(OrEmpty(payload))
    ensures PulledNormalised(payload, local) == Pulled(payload, local)
  {
    NormaliseOfNormal(OrEmpty(payload));
  }

  /** With the payload normalised, a repeated pull changes nothing for every payload `JSON.parse` can give. */
  lemma PullTwiceNormalised(payload: Json, local: Text)
    requires Parsed(OrEmpty(payload)) && Parsed(ParseOrEmpty(local))
    ensures PulledNormalised(payload, JsonText(PulledNormalised(payload, local))) == PulledNormalised(payload, local)
  {
    var r, l := Normalise(OrEmpty(payload)), OrEmpty(ParseOrEmpty(local));
    NormaliseNormal(OrEmpty(payload));
    MergeTruthy(r, l);
    MergeLeftAbsorb(r, l);
  }

  class SyncEngine {
    var signedIn: bool
    var remote: Option<RemoteDoc>
    var lastRemoteVersion: Option<int>
    var local: Text

    constructor (remote0: Option<RemoteDoc>, stored: Option<int>, local0: Text)
      ensures !signedIn && remote == remote0 && lastRemoteVersion == stored && local == local0
    {
      signedIn := false;
      remote := remote0;
      lastRemoteVersion := stored;
      local := local0;
    }

    /** `readRemote()`: nothing without a user or a document. */
    function ReadRemote(): Option<RemoteDoc>
      reads this
    {
      if signedIn then remote else None
    }

    /** `Number(localStorage.getItem(KEY_LAST_REMOTE_VERSION) || "0")`. */
    function LastRemote(): int
      reads this
    {
      lastRemoteVersion.GetOr(0)
    }

    /** `ensureDoc`: a missing document is created empty at version 0, and 0 is recorded. */
    method EnsureDoc(now: int)
      requires signedIn
      modifies this
      ensures signedIn && local == old(local)
      ensures old(remote).Some? ==> remote == old(remote) && lastRemoteVersion == old(lastRemoteVersion)
      ensures old(remote).None? ==> remote == Some(RemoteDoc(0, now, JObject([]))) && lastRemoteVersion == Some(0)
      ensures ReadRemote().Some?
    {
      if remote.None? {
        remote := Some(RemoteDoc(0, now, JObject([])));
        lastRemoteVersion := Some(0);
      }
    }

    /** `signInFirebase` once the popup returns a user. */
    method SignIn(now: int)
      modifies this
      ensures signedIn && local == old(local)
      ensures old(remote).Some? ==> remote == old(remote) && lastRemoteVersion == old(lastRemoteVersion)
      ensures old(remote).None? ==> remote == Some(RemoteDoc(0, now, JObject([]))) && lastRemoteVersion == Some(0)
    {
      signedIn := true;
      EnsureDoc(now);
    }

    /** `signOutFirebase`. */
    method SignOut()
      modifies this
      ensures !signedIn && remote == old(remote) && lastRemoteVersion == old(lastRemoteVersion) && local == old(local)
    {
      signedIn := false;
    }

    /**
     * `pullAndMerge`: without a readable document nothing changes; otherwise
     * the local snapshot becomes local merged over the remote payload and the
     * remote version is recorded.
     */
    method PullAndMerge() returns (res: SyncResult)
      modifies this
      ensures signedIn == old(signedIn) && remote == old(remote)
      ensures res == NoRemote <==> old(ReadRemote()).None?
      ensures res == NoRemote || res == Ok
      ensures res == NoRemote ==> local == old(local) && lastRemoteVersion == old(lastRemoteVersion)
      ensures res == Ok ==>
        local == JsonText(Pulled(remote.value.payload, old(local)))
        && lastRemoteVersion == Some(remote.value.version)
    {
      var current := ReadRemote();
      if current.None? {
        return NoRemote;
      }
      var localJson := ParseOrEmpty(local);
      var merged := DeepMergeUnique(OrEmpty(current.value.payload), OrEmpty(localJson));
      local := JsonText(merged);
      lastRemoteVersion := Some(current.value.version);
      return Ok;
    }

    /**
     * `pushSnapshot`: with a user and no conflict, the remote document is
     * replaced by the parsed local snapshot at the new version, which is
     * recorded; otherwise nothing changes.
     */
    method PushSnapshot(force: bool, version: int, updatedAt: int) returns (res: SyncResult)
      modifies this
      ensures signedIn == old(signedIn) && local == old(local)
      ensures res == NotSignedIn <==> !old(signedIn)
      ensures res == Conflict <==> old(signedIn) && Conflicts(old(ReadRemote()), old(LastRemote()), force)
      ensures res == Ok || res == NotSignedIn || res == Conflict
      ensures res != Ok ==> remote == old(remote) && lastRemoteVersion == old(lastRemoteVersion)
      ensures res == Ok ==>
        remote == Some(RemoteDoc(version, updatedAt, ParseOrEmpty(old(local))))
        && lastRemoteVersion == Some(version)
      ensures res == Ok ==> !Conflicts(ReadRemote(), LastRemote(), false)
    {
      if !signedIn {
        return NotSignedIn;
      }
      var current := ReadRemote();
      var lastRemote := LastRemote();
      if Conflicts(current, lastRemote, force) {
        return Conflict;
      }
      var payload := ParseOrEmpty(local);
      remote := Some(RemoteDoc(version, updatedAt, payload));
      lastRemoteVersion := Some(version);
      return Ok;
    }

    /**
     * `resetFromRemote`: without a readable document nothing changes;
     * otherwise the local snapshot becomes the remote payload and its version
     * is recorded.
     */
    method ResetFromRemote() returns (res: SyncResult)
      modifies this
      ensures signedIn == old(signedIn) && remote == old(remote)
      ensures res == NoRemote <==> old(ReadRemote()).None?
      ensures res == NoRemote || res == Ok
      ensures res == NoRemote ==> local == old(local) && lastRemoteVersion == old(lastRemoteVersion)
      ensures res == Ok ==>
        local == JsonText(OrEmpty(remote.value.payload)) && lastRemoteVersion == Some(remote.value.version)
    {
      var current := ReadRemote();
      if current.None? {
        return NoRemote;
      }
      local := JsonText(OrEmpty(current.value.payload));
      lastRemoteVersion := Some(current.value.version);
      return Ok;
    }
  }
}
