/** API keys: unbiased random strings, the key format, and which keys are live. */
module ApiKeys {
  import opened Prelude
  import opened Text

  /** Letters and digits without the ambiguous I, O, l, 0 and 1, in runs of consecutive codes. */
  const A_TO_H: string := "ABCDEFGH"
  const J_TO_N: string := "JKLMN"
  const P_TO_Z: string := "PQRSTUVWXYZ"
  const LOWER_A_TO_K: string := "abcdefghijk"
  const LOWER_M_TO_Z: string := "mnopqrstuvwxyz"
  const DIGITS: string := "23456789"
  const ALPHABET: string := A_TO_H + J_TO_N + P_TO_Z + LOWER_A_TO_K + LOWER_M_TO_Z + DIGITS
  const BYTES: nat := 256

  type Byte = b: int | 0 <= b < BYTES

  // ------------------------------------------------------------------------
  // Rejection sampling is uniform
  // ------------------------------------------------------------------------

  /** The largest multiple of `n` that fits in a byte's range. */
  function Limit(n: nat): nat
    requires n > 0
  {
    BYTES / n * n
  }

  predicate Accepts(n: nat, b: Byte)
    requires n > 0
  {
    b < Limit(n)
  }

  /** The bytes below `bound` that plain modulo maps to symbol `k`. */
  ghost function Draws(n: nat, k: nat, bound: nat): set<int>
    requires n > 0
  {
    set b: int | 0 <= b < bound && b % n == k
  }

  lemma RemainderIs(n: nat, q: nat, r: nat)
    requires r < n
    ensures (q * n + r) / n == q && (q * n + r) % n == r
  {
    var d := (q * n + r) / n - q;
    assert d * n == r - (q * n + r) % n;
    assert d >= 1 ==> d * n >= n;
    assert d <= -1 ==> d * n + n <= 0;
  }

  /** Counting on by one either stays in a block of `n` or starts the next. */
  lemma NextRemainder(n: nat, a: nat)
    requires n > 0
    ensures if a % n + 1 < n then (a + 1) / n == a / n && (a + 1) % n == a % n + 1
            else (a + 1) / n == a / n + 1 && (a + 1) % n == 0
  {
    assert a == a / n * n + a % n;
    if a % n + 1 < n {
      RemainderIs(n, a / n, a % n + 1);
    } else {
      assert (a / n + 1) * n == a + 1;
      RemainderIs(n, a / n + 1, 0);
    }
  }

  /** Each whole block of `n` bytes draws every symbol once; a partial one draws the first few. */
  lemma {:induction false} DrawsCount(n: nat, k: nat, bound: nat)
    requires k < n
    ensures |Draws(n, k, bound)| == bound / n + if k < bound % n then 1 else 0
    decreases bound
  {
    if bound > 0 {
      var b := bound - 1;
      DrawsCount(n, k, b);
      NextRemainder(n, b);
      assert Draws(n, k, bound) == if b % n == k then Draws(n, k, b) + {b} else Draws(n, k, b);
    } else {
      assert Draws(n, k, 0) == {};
    }
  }

  /** Every symbol of an alphabet of any size is drawn by equally many accepted bytes. */
  lemma SamplingIsUniform(n: nat, k: nat)
    requires 0 < n <= BYTES && k < n
    ensures |set b: Byte | Accepts(n, b) && b % n == k| == BYTES / n > 0
  {
    assert Limit(n) <= BYTES;
    DrawsCount(n, k, Limit(n));
    RemainderIs(n, BYTES / n, 0);
    assert (set b: Byte | Accepts(n, b) && b % n == k) == Draws(n, k, Limit(n));
  }

  /** Plain modulo favours the first `256 % n` symbols, so it is uniform only for divisors of 256. */
  lemma PlainModuloIsBiased(n: nat, k: nat)
    requires 0 < n <= BYTES && k < n
    ensures |set b: Byte | b % n == k| == BYTES / n + if k < BYTES % n then 1 else 0
  {
    DrawsCount(n, k, BYTES);
    assert (set b: Byte | b % n == k) == Draws(n, k, BYTES);
  }

  // ------------------------------------------------------------------------
  // Random strings
  // ------------------------------------------------------------------------

  predicate Kept(b: Byte) {
    Accepts(|ALPHABET|, b)
  }

  function Symbol(b: Byte): char {
    ALPHABET[b % |ALPHABET|]
  }

  /** The symbols of the accepted bytes of a stream. */
  function Symbols(stream: seq<Byte>): (r: string)
    ensures |r| == |Filter(stream, Kept)|
  {
    var kept := Filter(stream, Kept);
    seq(|kept|, i requires 0 <= i < |kept| => Symbol(kept[i]))
  }

  lemma SymbolsAppend(s: seq<Byte>, t: seq<Byte>)
    ensures Symbols(s + t) == Symbols(s) + Symbols(t)
  {
    FilterConcat(s, t, Kept);
  }

  lemma SymbolsOfOne(b: Byte)
    ensures Symbols([b]) == if Kept(b) then [Symbol(b)] else []
  {
    assert [b][1..] == [];
    assert Filter([b], Kept) == if Kept(b) then [b] else [];
  }

  function Capped(s: string, length: nat): string {
    if |s| > length then s[..length] else s
  }

  /** The character codes of `s` count up from `from`. */
  predicate IsRun(s: string, from: int) {
    forall i :: 0 <= i < |s| ==> s[i] as int == from + i
  }

  lemma AlphabetIsRuns()
    ensures |A_TO_H| == 8 && |J_TO_N| == 5 && |P_TO_Z| == 11
    ensures |LOWER_A_TO_K| == 11 && |LOWER_M_TO_Z| == 14 && |DIGITS| == 8
    ensures IsRun(A_TO_H, 65) && IsRun(J_TO_N, 74) && IsRun(P_TO_Z, 80)
    ensures IsRun(LOWER_A_TO_K, 97) && IsRun(LOWER_M_TO_Z, 109) && IsRun(DIGITS, 50)
  {
  }

  /** The code of the i-th symbol. */
  function Code(i: nat): int {
    if i < 8 then 65 + i
    else if i < 13 then 66 + i
    else if i < 24 then 67 + i
    else if i < 35 then 73 + i
    else if i < 49 then 74 + i
    else 1 + i
  }

  lemma AlphabetAt(i: nat)
    requires i < 57
    ensures |ALPHABET| == 57 && ALPHABET[i] as int == Code(i)
  {
    AlphabetIsRuns();
    if i < 24 {
      assert ALPHABET[i] == (if i < 8 then A_TO_H[i] else if i < 13 then J_TO_N[i - 8] else P_TO_Z[i - 13]);
    } else {
      assert ALPHABET[i] == (if i < 35 then LOWER_A_TO_K[i - 24]
                             else if i < 49 then LOWER_M_TO_Z[i - 35] else DIGITS[i - 49]);
    }
  }

  /** Of the 256 byte values, exactly four give each character of the alphabet. */
  lemma FourBytesEach(k: nat)
    requires k < 57
    ensures |ALPHABET| == 57
    ensures |set b: Byte | Kept(b) && Symbol(b) == ALPHABET[k]| == 4
  {
    AlphabetAt(k);
    SamplingIsUniform(57, k);
    forall b: Byte ensures Kept(b) && Symbol(b) == ALPHABET[k] <==> Accepts(57, b) && b % 57 == k {
      AlphabetAt(b % 57);
    }
    assert (set b: Byte | Kept(b) && Symbol(b) == ALPHABET[k]) == set b: Byte | Accepts(57, b) && b % 57 == k;
  }

  /** Takes symbols from one batch until it is used up or the string is long enough. */
  method TakeBatch(out0: string, length: nat, batch: seq<Byte>) returns (out: string)
    requires |out0| < length
    ensures out == Capped(out0 + Symbols(batch), length)
  {
    out := out0;
    for i := 0 to |batch|
      invariant out == out0 + Symbols(batch[..i])
      invariant |out| < length
    {
      var b := batch[i];
      assert batch[..i + 1] == batch[..i] + [b];
      SymbolsAppend(batch[..i], [b]);
      SymbolsOfOne(b);
      Associates(out0, Symbols(batch[..i]), Symbols([b]));
      if !Kept(b) {
        continue;
      }
      out := out + [Symbol(b)];
      if |out| == length {
        assert batch == batch[..i + 1] + batch[i + 1..];
        SymbolsAppend(batch[..i + 1], batch[i + 1..]);
        Associates(out0, Symbols(batch[..i + 1]), Symbols(batch[i + 1..]));
        return;
      }
    }
    assert batch[..|batch|] == batch;
  }

  /** The symbols that the first `k` batches of the random source yield. */
  function Yield(batches: seq<seq<Byte>>, k: nat): string
    requires k <= |batches|
  {
    Symbols(Concat(batches[..k]))
  }

  lemma YieldNext(batches: seq<seq<Byte>>, k: nat)
    requires k < |batches|
    ensures Yield(batches, k + 1) == Yield(batches, k) + Symbols(batches[k])
    ensures Yield(batches, 0) == ""
  {
    assert batches[..k + 1][..k] == batches[..k];
    SymbolsAppend(Concat(batches[..k]), batches[k]);
  }

  /** More batches never change the symbols already there. */
  lemma {:induction false} YieldGrows(batches: seq<seq<Byte>>, k: nat, l: nat, length: nat)
    requires k <= l <= |batches| && length <= |Yield(batches, k)|
    ensures length <= |Yield(batches, l)| && Yield(batches, k)[..length] == Yield(batches, l)[..length]
    decreases l - k
  {
    if k < l {
      YieldGrows(batches, k, l - 1, length);
      YieldNext(batches, l - 1);
    }
  }

  /** The first `length` symbols of the source, from no more batches than it takes. */
  method RandomString(length: nat, batches: seq<seq<Byte>>) returns (r: Option<string>, used: nat)
    ensures used <= |batches| && forall k :: 0 <= k < used ==> |Yield(batches, k)| < length
    ensures r.None? ==> used == |batches| && |Yield(batches, used)| < length
    ensures r.Some? ==> forall k :: used <= k <= |batches| ==>
                                      length <= |Yield(batches, k)| && r.value == Yield(batches, k)[..length]
  {
    var out: string := "";
    used := 0;
    assert Symbols([]) == "";
    hide Yield, Symbols;
    while |out| < length && used < |batches|
      invariant used <= |batches|
      invariant out == Capped(Yield(batches, used), length)
      invariant forall k :: 0 <= k < used ==> |Yield(batches, k)| < length
      decreases |batches| - used
    {
      YieldNext(batches, used);
      out := TakeBatch(out, length, batches[used]);
      used := used + 1;
    }
    if |out| < length {
      return None, used;
    }
    r := Some(out);
    forall k | used <= k <= |batches| ensures length <= |Yield(batches, k)| && out == Yield(batches, k)[..length] {
      YieldGrows(batches, used, k, length);
    }
  }

  // ------------------------------------------------------------------------
  // The key format
  // ------------------------------------------------------------------------

  const KEY_PREFIX: string := "cgk"
  const PREFIX_LENGTH: nat := 8
  const SECRET_LENGTH: nat := 32

  predicate IsSeparator(c: char) {
    c == '_'
  }

  function PrefixOf(prefixPart: string): string {
    KEY_PREFIX + "_" + prefixPart
  }

  function KeyOf(prefixPart: string, secretPart: string): string {
    PrefixOf(prefixPart) + "_" + secretPart
  }

  /** The prefix under which a presented key is looked up. */
  function LookupPrefix(key: string): Option<string> {
    var parts := Split(key, IsSeparator);
    if KEY_PREFIX + "_" <= key && |parts| >= 3 then Some(parts[0] + "_" + parts[1]) else None
  }

  lemma KeysAreFound(p: string, secret: string)
    requires '_' !in p
    ensures LookupPrefix(KeyOf(p, secret)) == Some(PrefixOf(p))
  {
    var tail := p + ['_'] + secret;
    assert KeyOf(p, secret) == KEY_PREFIX + ['_'] + tail;
    SplitFirst(KEY_PREFIX, '_', tail, IsSeparator);
    SplitFirst(p, '_', secret, IsSeparator);
  }

  lemma KeyFromTail(key: string, p: string, secret: string)
    requires KEY_PREFIX + "_" <= key && key[4..] == p + ['_'] + secret
    ensures key == KeyOf(p, secret)
  {
  }

  lemma SamePart(p: string, q: string)
    requires PrefixOf(p) == PrefixOf(q)
    ensures p == q
  {
    assert PrefixOf(p)[4..] == p && PrefixOf(q)[4..] == q;
  }

  /** What the split of a key that is found looks like. */
  lemma FoundParts(key: string)
    requires LookupPrefix(key).Some?
    ensures KEY_PREFIX + "_" <= key
    ensures var parts := Split(key[4..], IsSeparator);
            |parts| >= 2 && LookupPrefix(key) == Some(PrefixOf(parts[0]))
  {
    var tail := key[4..];
    assert key == KEY_PREFIX + ['_'] + tail;
    SplitFirst(KEY_PREFIX, '_', tail, IsSeparator);
  }

  lemma FoundAreKeys(key: string, p: string)
    requires LookupPrefix(key) == Some(PrefixOf(p))
    ensures exists secret :: key == KeyOf(p, secret)
  {
    FoundParts(key);
    hide KeyOf, LookupPrefix, Split;
    var tail := key[4..];
    SplitHead(tail, IsSeparator);
    SamePart(Split(tail, IsSeparator)[0], p);
    assert tail == p + ['_'] + tail[|p| + 1..];
    KeyFromTail(key, p, tail[|p| + 1..]);
  }

  /** The prefix found is `p` exactly for the keys made of it and any secret at all. */
  lemma PrefixIsRecovered(key: string, p: string)
    requires '_' !in p
    ensures LookupPrefix(key) == Some(PrefixOf(p)) <==> exists secret :: key == KeyOf(p, secret)
  {
    hide LookupPrefix;
    if LookupPrefix(key) == Some(PrefixOf(p)) {
      FoundAreKeys(key, p);
    }
    if secret :| key == KeyOf(p, secret) {
      KeysAreFound(p, secret);
    }
  }

  lemma SymbolsHaveNoSeparator(stream: seq<Byte>)
    ensures '_' !in Symbols(stream)
  {
    forall i | 0 <= i < |Symbols(stream)| ensures Symbols(stream)[i] != '_' {
      AlphabetAt(Filter(stream, Kept)[i] % 57);
    }
  }

  /** The random parts of a generated key. */
  datatype Parts = Parts(prefixPart: string, secretPart: string)

  lemma KeyTexts(p: Parts)
    ensures PrefixOf(p.prefixPart) == "cgk_" + p.prefixPart
    ensures KeyOf(p.prefixPart, p.secretPart) == "cgk_" + p.prefixPart + "_" + p.secretPart
  {
    assert KEY_PREFIX + "_" == "cgk_";
  }

  function KeyOfParts(p: Parts): string {
    KeyOf(p.prefixPart, p.secretPart)
  }

  /** The random parts of a key, from one random source after the other. */
  method GenerateKey(first: seq<seq<Byte>>, second: seq<seq<Byte>>) returns (parts: Option<Parts>)
    ensures parts.Some? ==>
              && |parts.value.prefixPart| == PREFIX_LENGTH && |parts.value.secretPart| == SECRET_LENGTH
              && '_' !in parts.value.prefixPart && '_' !in parts.value.secretPart
              && LookupPrefix(KeyOfParts(parts.value)) == Some(PrefixOf(parts.value.prefixPart))
    ensures parts.None? ==>
              |Yield(first, |first|)| < PREFIX_LENGTH || |Yield(second, |second|)| < SECRET_LENGTH
  {
    var prefixPart, used := RandomString(PREFIX_LENGTH, first);
    if prefixPart.None? {
      return None;
    }
    var secretPart, used2 := RandomString(SECRET_LENGTH, second);
    if secretPart.None? {
      return None;
    }
    RandomHasNoSeparator(first, used, PREFIX_LENGTH);
    RandomHasNoSeparator(second, used2, SECRET_LENGTH);
    KeysAreFound(prefixPart.value, secretPart.value);
    parts := Some(Parts(prefixPart.value, secretPart.value));
  }

  lemma RandomHasNoSeparator(batches: seq<seq<Byte>>, k: nat, length: nat)
    requires k <= |batches| && length <= |Yield(batches, k)|
    ensures '_' !in Yield(batches, k)[..length]
  {
    SymbolsHaveNoSeparator(Concat(batches[..k]));
  }

  // ------------------------------------------------------------------------
  // Which keys are live
  // ------------------------------------------------------------------------

  datatype KeyRow = KeyRow(user: nat, prefix: string, hash: string, expires: Option<nat>)

  datatype Table = Table(rows: map<nat, KeyRow>, next: nat)

  datatype Event =
    | Create(user: nat, parts: Parts, expires: Option<nat>)
    | Revoke(user: nat, id: nat)
    | Rotate(user: nat, id: nat, parts: Parts)

  predicate PrefixTaken(rows: map<nat, KeyRow>, prefix: string, except: Option<nat>) {
    exists id <- rows :: Some(id) != except && rows[id].prefix == prefix
  }

  predicate Owned(rows: map<nat, KeyRow>, user: nat, id: nat) {
    id in rows && rows[id].user == user
  }

  /** Takes effect: the row is the user's own, and the unique prefix column does not object. */
  predicate Effective(t: Table, e: Event) {
    match e
    case Create(_, parts, _) => !PrefixTaken(t.rows, PrefixOf(parts.prefixPart), None)
    case Revoke(user, id) => Owned(t.rows, user, id)
    case Rotate(user, id, parts) =>
      Owned(t.rows, user, id) && !PrefixTaken(t.rows, PrefixOf(parts.prefixPart), Some(id))
  }

  function Apply(t: Table, e: Event, hash: string -> string): Table {
    if !Effective(t, e) then t
    else
      match e
      case Create(user, p, expires) =>
        var row := KeyRow(user, PrefixOf(p.prefixPart), hash(KeyOf(p.prefixPart, p.secretPart)), expires);
        Table(t.rows[t.next := row], t.next + 1)
      case Revoke(_, id) => t.(rows := t.rows - {id})
      case Rotate(_, id, p) =>
        t.(rows := t.rows[id := t.rows[id].(prefix := PrefixOf(p.prefixPart),
                                            hash := hash(KeyOf(p.prefixPart, p.secretPart)))])
  }

  /** The keys handed out, by row, with the last one for each row that is still there. */
  function Handed(t: Table, keys: map<nat, Parts>, e: Event): map<nat, Parts> {
    if !Effective(t, e) then keys
    else
      match e
      case Create(_, p, _) => keys[t.next := p]
      case Revoke(_, id) => keys - {id}
      case Rotate(_, id, p) => keys[id := p]
  }

  /** The table and the keys in force after a run, from an empty table. */
  function Exec(run: seq<Event>, hash: string -> string): (Table, map<nat, Parts>)
  {
    if run == [] then (Table(map[], 0), map[])
    else
      var (t, keys) := Exec(run[..|run| - 1], hash);
      var e := run[|run| - 1];
      (Apply(t, e, hash), Handed(t, keys, e))
  }

  predicate Separable(e: Event) {
    match e
    case Create(_, p, _) => '_' !in p.prefixPart
    case Revoke(_, _) => true
    case Rotate(_, _, p) => '_' !in p.prefixPart
  }

  ghost predicate UniquePrefixes(rows: map<nat, KeyRow>) {
    forall i, j :: i in rows && j in rows && rows[i].prefix == rows[j].prefix ==> i == j
  }

  ghost predicate RowFits(row: KeyRow, p: Parts, hash: string -> string) {
    && '_' !in p.prefixPart
    && row.prefix == PrefixOf(p.prefixPart)
    && row.hash == hash(KeyOf(p.prefixPart, p.secretPart))
  }

  ghost predicate Inv(t: Table, keys: map<nat, Parts>, hash: string -> string) {
    && keys.Keys == t.rows.Keys
    && UniquePrefixes(t.rows)
    && (forall id <- t.rows :: id < t.next && RowFits(t.rows[id], keys[id], hash))
  }

  /** A new or changed row under a free prefix. */
  lemma PutKeepsInv(t: Table, keys: map<nat, Parts>, id: nat, row: KeyRow, p: Parts, hash: string -> string)
    requires Inv(t, keys, hash) && RowFits(row, p, hash)
    requires id <= t.next
    requires forall other <- t.rows :: other != id ==> t.rows[other].prefix != row.prefix
    ensures Inv(Table(t.rows[id := row], if id == t.next then t.next + 1 else t.next), keys[id := p], hash)
  {
  }

  lemma ApplyKeepsInv(t: Table, keys: map<nat, Parts>, e: Event, hash: string -> string)
    requires Inv(t, keys, hash) && Separable(e)
    ensures Inv(Apply(t, e, hash), Handed(t, keys, e), hash)
  {
    if Effective(t, e) {
      match e
      case Create(user, p, expires) =>
        var row := KeyRow(user, PrefixOf(p.prefixPart), hash(KeyOf(p.prefixPart, p.secretPart)), expires);
        PutKeepsInv(t, keys, t.next, row, p, hash);
      case Revoke(_, id) =>
      case Rotate(_, id, p) =>
        var row := t.rows[id].(prefix := PrefixOf(p.prefixPart), hash := hash(KeyOf(p.prefixPart, p.secretPart)));
        PutKeepsInv(t, keys, id, row, p, hash);
    }
  }

  lemma {:induction false} RunKeepsInv(run: seq<Event>, hash: string -> string)
    requires forall i :: 0 <= i < |run| ==> Separable(run[i])
    ensures Inv(Exec(run, hash).0, Exec(run, hash).1, hash)
  {
    if run == [] {
    } else {
      hide Apply, Handed;
      var init := run[..|run| - 1];
      RunKeepsInv(init, hash);
      ApplyKeepsInv(Exec(init, hash).0, Exec(init, hash).1, run[|run| - 1], hash);
    }
  }

  /** The row whose key this is: found by prefix, then compared by hash, and not expired. */
  predicate Matches(row: KeyRow, key: string, now: nat, hash: string -> string) {
    && LookupPrefix(key) == Some(row.prefix)
    && row.hash == hash(key)
    && !(row.expires.Some? && row.expires.value < now)
  }

  /** The hash tells these two keys apart, if they differ. */
  predicate NoCollision(hash: string -> string, a: string, b: string) {
    hash(a) == hash(b) ==> a == b
  }

  /**
   Whatever was created, rotated and revoked, by whom and in which order: a key opens a row exactly
   when it is the last key handed out for that row, the row is still there, and it has not expired.
   */
  lemma LiveKeysExactly(run: seq<Event>, key: string, now: nat, id: nat, hash: string -> string)
    requires forall i :: 0 <= i < |run| ==> Separable(run[i])
    requires var keys := Exec(run, hash).1; id in keys ==> NoCollision(hash, key, KeyOfParts(keys[id]))
    ensures var (t, keys) := Exec(run, hash);
            (id in t.rows && Matches(t.rows[id], key, now, hash)) <==>
            (id in keys && id in t.rows && key == KeyOfParts(keys[id])
             && !(t.rows[id].expires.Some? && t.rows[id].expires.value < now))
  {
    RunKeepsInv(run, hash);
    var (t, keys) := Exec(run, hash);
    if id in t.rows {
      var p := keys[id];
      assert RowFits(t.rows[id], p, hash);
      KeysAreFound(p.prefixPart, p.secretPart);
    }
  }

  class KeyTable {
    var table: Table

    ghost predicate Valid()
      reads this
    {
      UniquePrefixes(table.rows) && forall id <- table.rows :: id < table.next
    }

    /** Some row matches, or none does; at most one can. */
    method VerifyApiKey(key: string, now: nat, hash: string -> string) returns (found: Option<nat>)
      requires Valid()
      ensures found.Some? ==> found.value in table.rows && Matches(table.rows[found.value], key, now, hash)
      ensures found.None? ==> forall id <- table.rows :: !Matches(table.rows[id], key, now, hash)
    {
      if !(KEY_PREFIX + "_" <= key) {
        return None;
      }
      var parts := Split(key, IsSeparator);
      if |parts| < 3 {
        return None;
      }
      var prefix := parts[0] + "_" + parts[1];
      if id :| id in table.rows && table.rows[id].prefix == prefix {
        var row := table.rows[id];
        if hash(key) != row.hash {
          return None;
        }
        if row.expires.Some? && row.expires.value < now {
          return None;
        }
        return Some(id);
      }
      return None;
    }

    method CreateApiKey(user: nat, p: Parts, expires: Option<nat>, hash: string -> string)
      returns (created: Option<nat>)
      requires Valid()
      modifies this
      ensures Valid()
      ensures table == Apply(old(table), Create(user, p, expires), hash)
      ensures created == if Effective(old(table), Create(user, p, expires)) then Some(old(table).next) else None
      ensures created.None? <==> exists id <- old(table).rows :: old(table).rows[id].prefix == "cgk_" + p.prefixPart
      ensures created.Some? ==>
                && created.value !in old(table).rows
                && table.rows == old(table).rows[created.value := KeyRow(
                     user, "cgk_" + p.prefixPart, hash("cgk_" + p.prefixPart + "_" + p.secretPart), expires)]
    {
      var prefix, key := PrefixOf(p.prefixPart), KeyOf(p.prefixPart, p.secretPart);
      KeyTexts(p);
      if PrefixTaken(table.rows, prefix, None) {
        return None;
      }
      created := Some(table.next);
      table := Table(table.rows[table.next := KeyRow(user, prefix, hash(key), expires)], table.next + 1);
    }

    method RevokeApiKey(user: nat, id: nat) returns (deleted: bool)
      requires Valid()
      modifies this
      ensures Valid()
      ensures forall hash: string -> string :: table == Apply(old(table), Revoke(user, id), hash)
      ensures deleted <==> id in old(table).rows && old(table).rows[id].user == user
      ensures table.rows == if deleted then old(table).rows - {id} else old(table).rows
    {
      deleted := Owned(table.rows, user, id);
      if deleted {
        table := table.(rows := table.rows - {id});
      }
    }

    method RotateApiKey(user: nat, id: nat, p: Parts, hash: string -> string) returns (rotated: bool)
      requires Valid()
      modifies this
      ensures Valid()
      ensures table == Apply(old(table), Rotate(user, id, p), hash)
      ensures rotated <==>
              && id in old(table).rows && old(table).rows[id].user == user
              && forall other <- old(table).rows ::
                   other != id ==> old(table).rows[other].prefix != "cgk_" + p.prefixPart
      ensures rotated ==>
                table.rows == old(table).rows[id := KeyRow(
                  user, "cgk_" + p.prefixPart, hash("cgk_" + p.prefixPart + "_" + p.secretPart),
                  old(table).rows[id].expires)]
    {
      var prefix, key := PrefixOf(p.prefixPart), KeyOf(p.prefixPart, p.secretPart);
      KeyTexts(p);
      if !Owned(table.rows, user, id) || PrefixTaken(table.rows, prefix, Some(id)) {
        return false;
      }
      table := table.(rows := table.rows[id := table.rows[id].(prefix := prefix, hash := hash(key))]);
      return true;
    }
  }
}
