/** The memory of signature checks shared by the feature extensions: results
    keyed by a hash of three hashes, of which any may be forgotten at any time. */
module VerifyCache {
  import opened Bytes

  /** ComputeHash256 */
  type Hash = Bytes -> ID

  /** One check: the parameter set, the public key, the bytes whose hash stands for the message, the signature. */
  datatype Check = Check(level: nat, pk: Bytes, msg: Bytes, sig: Bytes)

  function Combined(hash: Hash, c: Check): Bytes {
    hash(c.pk) + hash(c.msg) + hash(c.sig)
  }

  /** verifyCacheKey; the level is not part of it. */
  function CacheKey(hash: Hash, c: Check): ID {
    hash(Combined(hash, c))
  }

  /** The byte strings that were hashed for a check. */
  function Hashed(hash: Hash, c: Check): set<Bytes> {
    {c.pk, c.msg, c.sig, Combined(hash, c)}
  }

  /** No two different strings hashed for these checks have the same hash. */
  ghost predicate NoCollision(hash: Hash, seen: set<Check>) {
    forall c, c' :: c in seen && c' in seen ==> NoCollisionBetween(hash, c, c')
  }

  ghost predicate NoCollisionBetween(hash: Hash, c: Check, c': Check) {
    forall x, y :: x in Hashed(hash, c) && y in Hashed(hash, c') && hash(x) == hash(y) ==> x == y
  }

  /** Every remembered result is the true result of some check that was made. */
  ghost predicate Sound(hash: Hash, genuine: Check -> bool, seen: set<Check>, cache: map<ID, bool>) {
    forall k :: k in cache ==> exists c :: c in seen && CacheKey(hash, c) == k && cache[k] == genuine(c)
  }

  /** Of what was asked for since, everything is about this message, these keys and these signatures. */
  ghost predicate AskedOnly(before: set<Check>, after: set<Check>, msg: Bytes, pks: seq<Bytes>, sigs: seq<Bytes>) {
    before <= after && forall c :: c in after ==> c in before || (c.msg == msg && c.pk in pks && c.sig in sigs)
  }

  /** The level of every check can be told from the length of its key. */
  ghost predicate LevelsTold(levelOf: nat -> nat, seen: set<Check>) {
    forall c :: c in seen ==> c.level == levelOf(|c.pk|)
  }

  lemma SplitThree(a: ID, b: ID, c: ID, a': ID, b': ID, c': ID)
    requires a + b + c == a' + b' + c'
    ensures a == a' && b == b' && c == c'
  {
    assert a == (a + b + c)[..32] && a' == (a' + b' + c')[..32];
    assert b == (a + b + c)[32..64] && b' == (a' + b' + c')[32..64];
    assert c == (a + b + c)[64..] && c' == (a' + b' + c')[64..];
  }

  /** Equal keys come from equal public keys, messages and signatures, unless hashes collided. */
  lemma KeyDeterminesCheck(hash: Hash, c: Check, c': Check)
    requires NoCollisionBetween(hash, c, c') && CacheKey(hash, c) == CacheKey(hash, c')
    ensures c.pk == c'.pk && c.msg == c'.msg && c.sig == c'.sig
  {
    assert Combined(hash, c) in Hashed(hash, c) && Combined(hash, c') in Hashed(hash, c');
    SplitThree(hash(c.pk), hash(c.msg), hash(c.sig), hash(c'.pk), hash(c'.msg), hash(c'.sig));
    assert c.pk in Hashed(hash, c) && c'.pk in Hashed(hash, c');
    assert c.msg in Hashed(hash, c) && c'.msg in Hashed(hash, c');
    assert c.sig in Hashed(hash, c) && c'.sig in Hashed(hash, c');
  }

  /** A remembered result is the true result of the check at hand. */
  lemma CacheAnswers(hash: Hash, genuine: Check -> bool, levelOf: nat -> nat, seen: set<Check>, cache: map<ID, bool>,
                     c: Check)
    requires Sound(hash, genuine, seen, cache)
    requires c in seen && CacheKey(hash, c) in cache
    requires NoCollision(hash, seen) && LevelsTold(levelOf, seen)
    ensures cache[CacheKey(hash, c)] == genuine(c)
  {
    var c' :| c' in seen && CacheKey(hash, c') == CacheKey(hash, c) && cache[CacheKey(hash, c)] == genuine(c');
    assert NoCollisionBetween(hash, c, c');
    KeyDeterminesCheck(hash, c, c');
    assert c == c';
  }

  lemma SoundAfterPut(hash: Hash, genuine: Check -> bool, seen: set<Check>, cache: map<ID, bool>, c: Check)
    requires Sound(hash, genuine, seen, cache) && c in seen
    ensures Sound(hash, genuine, seen, cache[CacheKey(hash, c) := genuine(c)])
  {
  }

  lemma SoundWhenMoreSeen(hash: Hash, genuine: Check -> bool, seen: set<Check>, seen': set<Check>,
                          cache: map<ID, bool>, cache': map<ID, bool>)
    requires Sound(hash, genuine, seen, cache) && seen <= seen'
    requires forall k :: k in cache' ==> k in cache && cache'[k] == cache[k]
    ensures Sound(hash, genuine, seen', cache')
  {
    forall k | k in cache' ensures exists c :: c in seen' && CacheKey(hash, c) == k && cache'[k] == genuine(c) {
      var c :| c in seen && CacheKey(hash, c) == k && cache[k] == genuine(c);
      assert c in seen';
    }
  }

  /** The cache drops all but some of the entries it is told to keep. */
  method Evict(cache: map<ID, bool>, keep: set<ID>) returns (cache': map<ID, bool>)
    ensures forall k :: k in cache' <==> k in cache && k in keep
    ensures forall k :: k in cache' ==> cache'[k] == cache[k]
  {
    cache' := map k | k in cache && k in keep :: cache[k];
  }
}
