/**
 The per-subject keyring of `keyring.rs`: a cache of keys over a directory of key files, with
 creation on demand and crypto-shredding. One call at a time; module KeyringRuns interleaves them.
 */
module Keyring {
  import opened Bytes
  import opened Wrappers

  const KEY_PREFIX: Str := Ascii("key-")
  const KEY_SUFFIX: Str := Ascii(".b64")
  const MAX_KEY_ID := 128

  /** A key is its generation: fresh keys never repeat. */
  type Key = nat

  /** A file that does not decode to 32 bytes is skipped when the directory is read. */
  datatype KeyFile = Good(key: Key) | Malformed

  type Name = seq<byte>

  /** Ideal encryption of a data key: it opens under the key that made it and no other. */
  datatype Blob = Blob(key: Key, dek: Str) | Garbage

  function UnwrapWithKey(key: Key, blob: Blob): Result<Str> {
    if blob.Blob? && blob.key == key then Ok(blob.dek) else Err(Crypto)
  }

  predicate IsKeyIdByte(b: byte) {
    48 <= b <= 57 || 65 <= b <= 90 || 97 <= b <= 122 || b == 45 || b == 95 || b == 46
  }

  predicate ValidKeyId(id: seq<byte>) {
    0 < |id| <= MAX_KEY_ID && forall i :: 0 <= i < |id| ==> IsKeyIdByte(id[i])
  }

  /** One to 128 letters, digits, hyphens, underscores and dots: nothing that could leave the directory. */
  lemma ValidKeyIdSpelled(id: seq<byte>)
    ensures ValidKeyId(id) <==>
              && 1 <= |id| <= 128
              && forall i :: 0 <= i < |id| ==> || '0' as int <= id[i] <= '9' as int
                                               || 'A' as int <= id[i] <= 'Z' as int
                                               || 'a' as int <= id[i] <= 'z' as int
                                               || id[i] == '-' as int || id[i] == '_' as int || id[i] == '.' as int
    ensures ValidKeyId(id) ==> '/' as int !in id
  {
  }

  function KeyName(id: seq<byte>): Name {
    KEY_PREFIX + id + KEY_SUFFIX
  }

  lemma KeyNameSpelled(id: seq<byte>)
    ensures KeyName(id) == Ascii("key-") + id + Ascii(".b64")
  {
  }

  function ParseKeyName(name: Name): Option<seq<byte>> {
    if !(KEY_PREFIX <= name) then None
    else
      var rest := name[|KEY_PREFIX|..];
      if |rest| < |KEY_SUFFIX| || rest[|rest| - |KEY_SUFFIX|..] != KEY_SUFFIX then None
      else Some(rest[..|rest| - |KEY_SUFFIX|])
  }

  lemma KeyNameRoundTrip(id: seq<byte>)
    ensures ParseKeyName(KeyName(id)) == Some(id)
  {
    var rest := KeyName(id)[|KEY_PREFIX|..];
    assert rest == id + KEY_SUFFIX;
    assert KEY_PREFIX <= KeyName(id);
  }

  lemma ParseKeyNameRoundTrip(name: Name)
    requires ParseKeyName(name).Some?
    ensures KeyName(ParseKeyName(name).value) == name
  {
    var rest := name[|KEY_PREFIX|..];
    assert name == KEY_PREFIX + rest;
    assert rest == rest[..|rest| - |KEY_SUFFIX|] + KEY_SUFFIX;
  }

  /** Different subjects never share a file, and every key file belongs to one subject. */
  lemma KeyFilesAreSubjects(id: seq<byte>, name: Name)
    ensures KeyName(id) == name <==> ParseKeyName(name) == Some(id)
  {
    KeyNameRoundTrip(id);
    if ParseKeyName(name) == Some(id) {
      ParseKeyNameRoundTrip(name);
    }
  }

  type Files = map<Name, KeyFile>
  type Cache = map<seq<byte>, Key>

  /** The cache agrees with the directory: the same subjects, the same keys. */
  ghost predicate Agree(cache: Cache, files: Files) {
    forall id :: if KeyName(id) in files && files[KeyName(id)].Good?
                 then id in cache && cache[id] == files[KeyName(id)].key
                 else id !in cache
  }

  lemma AgreeingCacheIsUnique(a: Cache, b: Cache, files: Files)
    requires Agree(a, files) && Agree(b, files)
    ensures a == b
  {
    hide KeyName;
    forall id
      ensures id in a <==> id in b
      ensures id in a ==> a[id] == b[id]
    {
      if KeyName(id) in files && files[KeyName(id)].Good? {
      }
    }
  }

  // ---------- What the two changing operations do ----------

  /** Cache and directory after an operation, and its answer. */
  datatype Outcome = Outcome(cache: Cache, files: Files, answer: Result<bool>)

  /** `rng` is the random generator's answer, `writes` tells whether the file could be written. */
  function EnsureOutcome(cache: Cache, files: Files, id: seq<byte>, rng: Result<Key>, writes: bool): Outcome {
    if !ValidKeyId(id) then Outcome(cache, files, Err(Error.Key))
    else if id in cache then Outcome(cache, files, Ok(false))
    else if rng.Err? then Outcome(cache, files, Err(rng.error))
    else if !writes then Outcome(cache, files, Err(Io))
    else Outcome(cache[id := rng.value], files[KeyName(id) := Good(rng.value)], Ok(true))
  }

  /** The cache forgets the key whether or not its file can be removed. */
  function ShredOutcome(cache: Cache, files: Files, id: seq<byte>, removes: bool): Outcome {
    if !ValidKeyId(id) then Outcome(cache, files, Err(Error.Key))
    else if KeyName(id) !in files then Outcome(cache - {id}, files, Ok(id in cache))
    else if removes then Outcome(cache - {id}, files - {KeyName(id)}, Ok(true))
    else Outcome(cache - {id}, files, Err(Io))
  }

  lemma EnsureKeepsAgreement(cache: Cache, files: Files, id: seq<byte>, rng: Result<Key>, writes: bool)
    requires Agree(cache, files)
    ensures var after := EnsureOutcome(cache, files, id, rng, writes);
            Agree(after.cache, after.files)
  {
    hide KeyName, ValidKeyId;
    forall other
      ensures KeyName(other) == KeyName(id) <==> other == id
    {
      KeyNamesDiffer(other, id);
    }
  }

  /** One thing only sets cache and directory apart: a key whose file could not be removed. */
  lemma ShredKeepsAgreementExactly(cache: Cache, files: Files, id: seq<byte>, removes: bool)
    requires Agree(cache, files)
    ensures var after := ShredOutcome(cache, files, id, removes);
            Agree(after.cache, after.files) <==> after.answer.Ok? || id !in cache || !ValidKeyId(id)
  {
    hide KeyName, ValidKeyId;
    forall other
      ensures KeyName(other) == KeyName(id) <==> other == id
    {
      KeyNamesDiffer(other, id);
    }
  }

  /** Every cached key is in its file. This survives failures too. */
  ghost predicate OnFile(cache: Cache, files: Files) {
    forall id :: id in cache ==> KeyName(id) in files && files[KeyName(id)] == Good(cache[id])
  }

  lemma CachedKeysStayOnFile(cache: Cache, files: Files, id: seq<byte>, rng: Result<Key>, writes: bool, removes: bool)
    requires OnFile(cache, files)
    ensures var after := EnsureOutcome(cache, files, id, rng, writes);
            OnFile(after.cache, after.files)
    ensures var after := ShredOutcome(cache, files, id, removes);
            OnFile(after.cache, after.files)
  {
    hide KeyName, ValidKeyId;
    forall other
      ensures KeyName(other) == KeyName(id) <==> other == id
    {
      KeyNamesDiffer(other, id);
    }
  }

  /**
   When `ensure` destroys a key: it never removes a key file, and with a fresh key it overwrites a
   good one exactly if the file is the subject's own, the cache does not hold the subject, and both
   the generator and the write succeed.
   */
  lemma EnsureOverwritesExactly(cache: Cache, files: Files, id: seq<byte>, rng: Result<Key>, writes: bool, name: Name)
    requires name in files && files[name].Good? && (rng.Ok? ==> rng.value != files[name].key)
    ensures var after := EnsureOutcome(cache, files, id, rng, writes);
            && name in after.files
            && (after.files[name] != files[name] <==>
                ParseKeyName(name) == Some(id) && ValidKeyId(id) && id !in cache && rng.Ok? && writes)
    ensures Agree(cache, files) ==> EnsureOutcome(cache, files, id, rng, writes).files[name] == files[name]
  {
    hide KeyName, ParseKeyName, ValidKeyId;
    KeyFilesAreSubjects(id, name);
  }

  /**
   A removal that fails sets this up: the next `ensure` mints over a key that was never shredded,
   and what that key wrapped cannot be opened any more.
   */
  lemma FailedShredThenEnsure(cache: Cache, files: Files, id: seq<byte>, newKey: Key, dek: Str)
    requires Agree(cache, files) && ValidKeyId(id) && id in cache && newKey != cache[id]
    ensures var failed := ShredOutcome(cache, files, id, false);
            var ensured := EnsureOutcome(failed.cache, failed.files, id, Ok(newKey), true);
            && failed.answer == Err(Io) && failed.files == files
            && ensured.answer == Ok(true)
            && files[KeyName(id)] == Good(cache[id]) && ensured.files[KeyName(id)] == Good(newKey)
            && ensured.cache[id] == newKey && UnwrapWithKey(newKey, Blob(cache[id], dek)).Err?
  {
    hide KeyName, ValidKeyId;
  }

  /** Shredding again after a failed removal does what the first attempt should have done. */
  lemma ShredCanBeRetried(cache: Cache, files: Files, id: seq<byte>)
    requires ShredOutcome(cache, files, id, false).answer == Err(Io)
    ensures var failed := ShredOutcome(cache, files, id, false);
            ShredOutcome(failed.cache, failed.files, id, true) == ShredOutcome(cache, files, id, true)
  {
    hide KeyName, ValidKeyId;
    assert cache - {id} - {id} == cache - {id};
  }

  class KeyDirectory {
    var files: Files

    constructor ()
      ensures files == map[]
    {
      files := map[];
    }
  }

  class KeyringProvider {
    const dir: KeyDirectory
    const autoCreate: bool
    var cache: Cache

    ghost predicate Valid()
      reads this, dir
    {
      Agree(cache, dir.files)
    }

    /** Opening loads every key file that decodes. */
    constructor Open(dir: KeyDirectory, autoCreate: bool)
      ensures this.dir == dir && this.autoCreate == autoCreate
      ensures Valid()
    {
      this.dir, this.autoCreate := dir, autoCreate;
      new;
      var loaded: Cache := map[];
      var names := dir.files.Keys;
      while names != {}
        invariant names <= dir.files.Keys
        invariant forall id :: if KeyName(id) in dir.files && KeyName(id) !in names && dir.files[KeyName(id)].Good?
                               then id in loaded && loaded[id] == dir.files[KeyName(id)].key
                               else id !in loaded
        decreases names
      {
        hide KeyName, ParseKeyName;
        var name :| name in names;
        names := names - {name};
        var id := ParseKeyName(name);
        forall other
          ensures KeyName(other) == name <==> id == Some(other)
        {
          KeyFilesAreSubjects(other, name);
        }
        if id.Some? && dir.files[name].Good? {
          loaded := loaded[id.value := dir.files[name].key];
        }
      }
      cache := loaded;
    }

    method Ensure(id: Str, rng: Result<Key>, writes: bool) returns (created: Result<bool>)
      modifies this, dir
      ensures Outcome(cache, dir.files, created) == EnsureOutcome(old(cache), old(dir.files), id, rng, writes)
      ensures created == if !ValidKeyId(id) then Err(Error.Key)
                         else if id in old(cache) then Ok(false)
                         else if rng.Err? then Err(rng.error)
                         else if !writes then Err(Io)
                         else Ok(true)
      ensures cache == if created == Ok(true) then old(cache)[id := rng.value] else old(cache)
      ensures dir.files == if created == Ok(true) then old(dir.files)[KeyName(id) := Good(rng.value)]
                           else old(dir.files)
      ensures old(Valid()) ==> Valid()
    {
      hide KeyName, ValidKeyId, Agree;
      if old(Valid()) {
        EnsureKeepsAgreement(cache, dir.files, id, rng, writes);
      }
      if !ValidKeyId(id) {
        return Err(Error.Key);
      }
      if id in cache {
        return Ok(false);
      }
      if rng.Err? {
        return Err(rng.error);
      }
      if !writes {
        return Err(Io);
      }
      dir.files := dir.files[KeyName(id) := Good(rng.value)];
      cache := cache[id := rng.value];
      created := Ok(true);
    }

    method Get(id: Str) returns (key: Result<Key>)
      ensures key == if id in cache then Ok(cache[id]) else Err(Error.Key)
    {
      key := if id in cache then Ok(cache[id]) else Err(Error.Key);
    }

    /**
     The cache forgets the key before the file is removed. If removing fails, the error leaves the
     file behind, and with it the key.
     */
    method Shred(id: Str, removes: bool) returns (had: Result<bool>)
      modifies this, dir
      ensures Outcome(cache, dir.files, had) == ShredOutcome(old(cache), old(dir.files), id, removes)
      ensures had == if !ValidKeyId(id) then Err(Error.Key)
                     else if KeyName(id) in old(dir.files) && !removes then Err(Io)
                     else Ok(id in old(cache) || KeyName(id) in old(dir.files))
      ensures cache == if ValidKeyId(id) then old(cache) - {id} else old(cache)
      ensures dir.files == if had.Ok? then old(dir.files) - {KeyName(id)} else old(dir.files)
      ensures old(Valid()) ==> (Valid() <==> had.Ok? || id !in old(cache) || !ValidKeyId(id))
    {
      hide KeyName, ValidKeyId, Agree;
      if old(Valid()) {
        ShredKeepsAgreementExactly(cache, dir.files, id, removes);
      }
      if !ValidKeyId(id) {
        return Err(Error.Key);
      }
      var cached := id in cache;
      cache := cache - {id};
      var existed := KeyName(id) in dir.files;
      if existed {
        if !removes {
          return Err(Io);
        }
        dir.files := dir.files - {KeyName(id)};
      }
      had := Ok(cached || existed);
    }

    /** Wrapping may mint a key first, and otherwise changes nothing. */
    method WrapDek(id: Str, dek: Str, rng: Result<Key>, writes: bool) returns (r: Result<Blob>)
      modifies this, dir
      ensures old(Valid()) ==> Valid()
      ensures r.Ok? <==> if autoCreate then ValidKeyId(id) && (id in old(cache) || (rng.Ok? && writes))
                         else id in old(cache)
      ensures r.Ok? ==> id in cache && r.value == Blob(cache[id], dek)
      ensures var mints := r.Ok? && id !in old(cache);
              && cache == (if mints then old(cache)[id := rng.value] else old(cache))
              && dir.files == (if mints then old(dir.files)[KeyName(id) := Good(rng.value)] else old(dir.files))
    {
      hide KeyName, ValidKeyId, Agree;
      if autoCreate {
        var ensured := Ensure(id, rng, writes);
        if ensured.Err? {
          return Err(ensured.error);
        }
      }
      var key := Get(id);
      if key.Err? {
        return Err(key.error);
      }
      r := Ok(Blob(key.value, dek));
    }

    method UnwrapDek(id: Str, blob: Blob) returns (dek: Result<Str>)
      ensures dek == if id in cache then UnwrapWithKey(cache[id], blob) else Err(Error.Key)
      ensures dek.Ok? <==> id in cache && blob.Blob? && blob.key == cache[id]
      ensures dek.Ok? ==> dek.value == blob.dek
      ensures dek.Err? ==> dek.error == if id in cache then Crypto else Error.Key
    {
      var key := Get(id);
      if key.Err? {
        return Err(key.error);
      }
      dek := UnwrapWithKey(key.value, blob);
    }
  }

  lemma KeyNamesDiffer(a: seq<byte>, b: seq<byte>)
    ensures KeyName(a) == KeyName(b) <==> a == b
  {
    KeyNameRoundTrip(a);
    KeyNameRoundTrip(b);
  }

  /**
   Shredding one subject erases that subject and nobody else, across a reopening too: once it has
   succeeded, whatever cache a fresh process loads has no key for the subject and every other key
   as before. After a failure the fresh process has every key.
   */
  lemma ShredAcrossReopen(cache: Cache, files: Files, id: seq<byte>, removes: bool, reloaded: Cache)
    requires Agree(cache, files) && Agree(reloaded, ShredOutcome(cache, files, id, removes).files)
    ensures reloaded == if ShredOutcome(cache, files, id, removes).answer.Ok? then cache - {id} else cache
  {
    hide KeyName, ValidKeyId, Agree;
    var after := ShredOutcome(cache, files, id, removes);
    if after.answer.Ok? {
      ShredKeepsAgreementExactly(cache, files, id, true);
      AgreeingCacheIsUnique(reloaded, cache - {id}, after.files);
    } else {
      AgreeingCacheIsUnique(reloaded, cache, files);
    }
  }
}
