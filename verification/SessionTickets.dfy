/** Session ticket keys: a sliding window of the newest keys, kept in a file as one run of 32-byte chunks. */
module SessionTickets {
  import opened Wrappers

  const TICKET_KEY_SIZE := 32
  const DEFAULT_RETAIN_KEYS := 3
  const MIN_RETAIN_KEYS := 2

  type Bytes = seq<bv8>
  type Key = k: Bytes | |k| == 32 witness seq(32, i => 0)

  /** The newest `n` keys; the list is oldest first. */
  function Newest(keys: seq<Key>, n: nat): (r: seq<Key>)
    ensures |r| == if |keys| > n then n else |keys|
    ensures r == keys[|keys|-|r|..]
  {
    if |keys| > n then keys[|keys|-n..] else keys
  }

  function Encode(keys: seq<Key>): Bytes
  {
    if keys == [] then [] else keys[0] + Encode(keys[1..])
  }

  /** The whole chunks of some bytes; a partial chunk at the end is dropped. */
  function Chunks(data: Bytes): seq<Key>
  {
    if |data| < TICKET_KEY_SIZE then [] else [data[..TICKET_KEY_SIZE]] + Chunks(data[TICKET_KEY_SIZE..])
  }

  /** What loading some file contents gives. */
  function Load(data: Bytes, retain: nat): Option<seq<Key>>
  {
    if |data| < TICKET_KEY_SIZE then None else Some(Newest(Chunks(data), retain))
  }

  // ---------------------------------------------------------------- round trips

  lemma {:induction false} ChunksOfEncode(keys: seq<Key>)
    ensures Chunks(Encode(keys)) == keys
    ensures |Encode(keys)| == 32 * |keys|
  {
    if keys != [] {
      ChunksOfEncode(keys[1..]);
      assert Encode(keys)[..TICKET_KEY_SIZE] == keys[0];
      assert Encode(keys)[TICKET_KEY_SIZE..] == Encode(keys[1..]);
    }
  }

  lemma EncodeOne(key: Key)
    ensures Encode([key]) == key
  {
    assert [key][1..] == [];
    assert Encode([key][1..]) == [];
  }

  /** Cutting arbitrary bytes into keys loses exactly the incomplete chunk at the end. */
  lemma {:induction false} EncodeOfChunks(data: Bytes)
    ensures 32 * |Chunks(data)| <= |data| < 32 * |Chunks(data)| + 32
    ensures Encode(Chunks(data)) == data[..32 * |Chunks(data)|]
  {
    if |data| >= TICKET_KEY_SIZE {
      var rest := data[TICKET_KEY_SIZE..];
      EncodeOfChunks(rest);
      assert Chunks(data)[1..] == Chunks(rest);
      assert data[..32] + rest[..32 * |Chunks(rest)|] == data[..32 * |Chunks(data)|];
    }
  }

  /** Loading what was saved gives the newest keys the loader retains; all of them when they fit. Nothing
      is ever loaded from an empty list. */
  lemma {:induction false} LoadOfSave(keys: seq<Key>, retain: nat)
    ensures Load(Encode(keys), retain) == if keys == [] then None else Some(Newest(keys, retain))
    ensures 1 <= |keys| <= retain ==> Load(Encode(keys), retain) == Some(keys)
  {
    ChunksOfEncode(keys);
  }

  /** The bytes of the file where key `k` lies. */
  function Slot(data: Bytes, k: nat): Bytes
    requires 32 * (k + 1) <= |data|
  {
    data[32 * k..32 * k + 32]
  }

  /** On arbitrary bytes, loading keeps the last whole chunks, as many as there are or as are retained; it
      fails exactly when there is not even one. */
  lemma LoadIsLastChunks(data: Bytes, retain: nat)
    ensures Load(data, retain).Some? <==> Chunks(data) != []
    ensures Load(data, retain).Some? ==>
      var n := if |Chunks(data)| < retain then |Chunks(data)| else retain;
      Load(data, retain).value == Chunks(data)[|Chunks(data)|-n..]
    ensures |data| - 32 < 32 * |Chunks(data)| <= |data|
  {
    ChunkCount(data);
  }

  lemma ChunkCount(data: Bytes)
    ensures |data| - 32 < 32 * |Chunks(data)| <= |data|
  {
    EncodeOfChunks(data);
  }

  /** Key `k` of the file is its bytes from 32 k on. */
  lemma {:induction false} ChunkAt(data: Bytes, k: nat)
    requires k < |Chunks(data)|
    ensures 32 * (k + 1) <= |data| && Chunks(data)[k] == Slot(data, k)
  {
    if k > 0 {
      var rest := data[TICKET_KEY_SIZE..];
      ChunkAt(rest, k - 1);
      assert Slot(rest, k - 1) == Slot(data, k);
    }
  }

  // ---------------------------------------------------------------- rotation

  /** One rotation; when no key could be generated nothing changes. */
  function Rotate(keys: seq<Key>, retain: nat, generated: Option<Key>): seq<Key>
  {
    match generated
    case None => keys
    case Some(key) => Newest(keys + [key], retain)
  }

  function Rotations(keys: seq<Key>, retain: nat, generated: seq<Option<Key>>): seq<Key>
  {
    if generated == [] then keys
    else Rotate(Rotations(keys, retain, generated[..|generated|-1]), retain, generated[|generated|-1])
  }

  function Successes(generated: seq<Option<Key>>): seq<Key>
  {
    if generated == [] then []
    else
      var front, last := Successes(generated[..|generated|-1]), generated[|generated|-1];
      if last.None? then front else front + [last.value]
  }

  lemma NewestOfNewest(keys: seq<Key>, key: Key, n: nat)
    ensures Newest(Newest(keys, n) + [key], n) == Newest(keys + [key], n)
  {
    if |keys| > n {
      var r := Newest(keys, n) + [key];
      assert r[1..] == (keys + [key])[|keys| + 1 - n..];
    }
  }

  /** Rotating is a window: whatever fits at the start, the list is always the newest of everything the
      manager started with or generated since. */
  lemma {:induction false} RotationsAreNewest(keys: seq<Key>, retain: nat, generated: seq<Option<Key>>)
    requires |keys| <= retain
    ensures Rotations(keys, retain, generated) == Newest(keys + Successes(generated), retain)
  {
    if generated == [] {
      assert keys + Successes(generated) == keys;
    } else {
      var front, last := generated[..|generated|-1], generated[|generated|-1];
      RotationsAreNewest(keys, retain, front);
      if last.Some? {
        NewestOfNewest(keys + Successes(front), last.value, retain);
        assert keys + Successes(front) + [last.value] == keys + Successes(generated);
      }
    }
  }

  /** From one generated key, `n` successful rotations leave the last min(n + 1, retain) generated keys, in
      order. */
  lemma {:induction false} WindowFromOneKey(key: Key, retain: nat, generated: seq<Option<Key>>)
    requires retain > 0
    ensures var all := [key] + Successes(generated); var keys := Rotations([key], retain, generated);
      && |keys| == (if |all| < retain then |all| else retain)
      && keys == all[|all|-|keys|..]
  {
    RotationsAreNewest([key], retain, generated);
  }

  /** How long a key stays: while the list has distinct keys, old or new, the key at position `p` is still
      there after some successful rotations exactly when they are no more than the free places plus the
      keys before it. The newest key of a full list thus outlives retain - 1 rotations, the oldest none. */
  lemma SurvivesIff(keys: seq<Key>, retain: nat, generated: seq<Option<Key>>, p: nat)
    requires p < |keys| <= retain
    requires var all := keys + Successes(generated);
      forall i, j :: 0 <= i < j < |all| ==> all[i] != all[j]
    ensures keys[p] in Rotations(keys, retain, generated) <==>
      |Successes(generated)| <= retain - |keys| + p
  {
    RotationsAreNewest(keys, retain, generated);
    var all := keys + Successes(generated);
    assert all[p] == keys[p];
    StaysInNewest(all, retain, p);
  }

  lemma StaysInNewest(all: seq<Key>, n: nat, p: nat)
    requires p < |all| && forall i, j :: 0 <= i < j < |all| ==> all[i] != all[j]
    ensures all[p] in Newest(all, n) <==> |all| - n <= p
  {
    var r := Newest(all, n);
    var cut := |all| - |r|;
    if p >= cut {
      assert r[p - cut] == all[p];
    } else {
      forall i | 0 <= i < |r| ensures r[i] != all[p] {
        assert r[i] == all[cut + i];
      }
    }
  }

  /** The first key of a list - the one handed over first - is the newest exactly when it is the only one, and
      stays for just as many successful rotations as there are free places: in a full list for none. */
  lemma {:induction false} FirstKey(keys: seq<Key>, retain: nat, generated: seq<Option<Key>>)
    requires 0 < |keys| <= retain
    requires var all := keys + Successes(generated);
      forall i, j :: 0 <= i < j < |all| ==> all[i] != all[j]
    ensures keys[0] == keys[|keys|-1] <==> |keys| == 1
    ensures keys[0] in Rotations(keys, retain, generated) <==> |Successes(generated)| <= retain - |keys|
    ensures keys[|keys|-1] in Rotations(keys, retain, generated) <==> |Successes(generated)| < retain
  {
    SurvivesIff(keys, retain, generated, 0);
    SurvivesIff(keys, retain, generated, |keys| - 1);
    var all := keys + Successes(generated);
    assert all[0] == keys[0] && all[|keys|-1] == keys[|keys|-1];
  }

  /** What was handed over stays as it is while the manager rotates. So the first key handed over is the newest
      of the manager's list exactly as long as it was the only one and no rotation has succeeded since; and the
      keys handed over are the manager's exactly as long as no rotation has succeeded. */
  lemma {:induction false} HandedOverIff(keys: seq<Key>, retain: nat, generated: seq<Option<Key>>)
    requires 0 < |keys| <= retain
    requires var all := keys + Successes(generated);
      forall i, j :: 0 <= i < j < |all| ==> all[i] != all[j]
    ensures var now := Rotations(keys, retain, generated);
      && now != []
      && (keys[0] == now[|now|-1] <==> |keys| == 1 && Successes(generated) == [])
      && (now == keys <==> Successes(generated) == [])
  {
    RotationsAreNewest(keys, retain, generated);
    var all := keys + Successes(generated);
    assert all[0] == keys[0] && all[|keys|-1] == keys[|keys|-1];
    var now := Rotations(keys, retain, generated);
    assert now[|now|-1] == all[|all|-1];
    if Successes(generated) == [] {
      assert all == keys;
    }
  }

  /** The TLS configuration, as far as the manager touches it. */
  class TLSConfig {
    var ticketKeys: seq<Key>

    constructor ()
      ensures ticketKeys == []
    {
      ticketKeys := [];
    }
  }

  // ---------------------------------------------------------------- the manager

  /** How writing the key file went: in full, or failing with whatever is then on disk. */
  datatype Write = Written | Failed(left: Option<Bytes>)

  function Disk(w: Write, data: Bytes): Option<Bytes>
  {
    if w.Written? then Some(data) else w.left
  }

  class SessionTicketManager {
    const retainKeys: nat
    const hasKeyFile: bool
    var keys: seq<Key>
    var disk: Option<Bytes>  // the key file, None when there is none

    ghost predicate Valid()
      reads this
    {
      retainKeys >= MIN_RETAIN_KEYS && |keys| <= retainKeys
    }

    /** The file, if there is one, is an image of the list: a restart finds the same keys. */
    ghost predicate Saved()
      reads this
    {
      hasKeyFile && disk == Some(Encode(keys))
    }

    constructor (configuredRetain: int, hasKeyFile: bool, disk: Option<Bytes>)
      ensures Valid() && keys == [] && this.hasKeyFile == hasKeyFile && this.disk == disk
      ensures retainKeys == if configuredRetain < 2 then 3 else configuredRetain
    {
      retainKeys := if configuredRetain < MIN_RETAIN_KEYS then DEFAULT_RETAIN_KEYS else configuredRetain;
      this.hasKeyFile := hasKeyFile;
      this.disk := disk;
      keys := [];
    }

    /** The first keys: those of a readable, long enough file, otherwise one generated key; without a file
        always one generated key. Fails when none could be generated, or its file not written. */
    method LoadOrGenerate(readable: bool, generated: Option<Key>, write: Write) returns (ok: bool)
      requires Valid()
      modifies this`keys, this`disk
      ensures Valid()
      ensures var loaded := if hasKeyFile && old(disk).Some? && readable
                            then Load(old(disk).value, retainKeys) else None;
        if loaded.Some? then ok && keys == loaded.value && disk == old(disk)
        else if generated.None? then !ok && keys == old(keys) && disk == old(disk)
        else
          && keys == [generated.value]
          && ok == (hasKeyFile ==> write.Written?)
          && disk == if hasKeyFile then Disk(write, generated.value) else old(disk)
      ensures ok ==> |keys| >= 1
    {
      if hasKeyFile && disk.Some? {
        ok := LoadKeys(readable);
        if ok {
          return;
        }
      }
      ok := GenerateAndSaveKey(generated, write);
    }

    method GenerateAndSaveKey(generated: Option<Key>, write: Write) returns (ok: bool)
      requires Valid()
      modifies this`keys, this`disk
      ensures Valid()
      ensures generated.None? ==> !ok && keys == old(keys) && disk == old(disk)
      ensures generated.Some? ==>
        && keys == [generated.value]
        && ok == (hasKeyFile ==> write.Written?)
        && disk == if hasKeyFile then Disk(write, generated.value) else old(disk)
    {
      if generated.None? {
        return false;
      }
      keys := [generated.value];
      ok := true;
      if hasKeyFile {
        EncodeOne(generated.value);
        ok := SaveKeys(write);
      }
    }

    static method ReadChunks(data: Bytes) returns (loaded: seq<Key>)
      ensures loaded == Chunks(data)
    {
      loaded := [];
      var i := 0;
      assert data[0..] == data;
      while i + TICKET_KEY_SIZE <= |data|
        invariant 0 <= i <= |data|
        invariant loaded + Chunks(data[i..]) == Chunks(data)
      {
        var key: Key := data[i..i+TICKET_KEY_SIZE];
        ghost var rest := data[i..];
        assert rest[..TICKET_KEY_SIZE] == key;
        assert rest[TICKET_KEY_SIZE..] == data[i+TICKET_KEY_SIZE..];
        loaded := loaded + [key];
        i := i + TICKET_KEY_SIZE;
      }
    }

    /** Read the file chunk by chunk, then keep the newest; a file shorter than one key is refused and the
        list stays as it was. */
    method LoadKeys(readable: bool) returns (ok: bool)
      requires Valid() && hasKeyFile
      modifies this`keys
      ensures Valid()
      ensures var loaded := if disk.Some? && readable then Load(disk.value, retainKeys) else None;
        ok == loaded.Some? && keys == loaded.GetOr(old(keys))
      ensures ok ==> |keys| >= 1
    {
      if disk.None? || !readable {
        return false;
      }
      var data := disk.value;
      if |data| < TICKET_KEY_SIZE {
        return false;
      }
      var loaded := ReadChunks(data);
      if |loaded| > retainKeys {
        loaded := loaded[|loaded|-retainKeys..];
      }
      keys := loaded;
      ok := |keys| != 0;
    }

    /** Write all keys one after the other. */
    method SaveKeys(write: Write) returns (ok: bool)
      modifies this`disk
      ensures ok == write.Written? && disk == Disk(write, Encode(keys))
      ensures ok && hasKeyFile ==> Saved()
    {
      var data: Bytes := [];
      assert keys[0..] == keys;
      for i := 0 to |keys|
        invariant data + Encode(keys[i..]) == Encode(keys)
      {
        assert keys[i..][1..] == keys[i+1..];
        assert data + Encode(keys[i..]) == data + keys[i] + Encode(keys[i+1..]);
        data := data + keys[i];
      }
      assert keys[|keys|..] == [];
      assert data + [] == data;
      disk := Disk(write, data);
      ok := write.Written?;
    }

    /** A copy of the keys, oldest first. */
    method GetKeys() returns (result: seq<Key>)
      ensures result == keys
    {
      result := [];
      for i := 0 to |keys|
        invariant result == keys[..i]
      {
        result := result + [keys[i]];
      }
    }

    /** Hand the keys to the TLS configuration in the order of the list, so the oldest first. */
    method ApplyToTLSConfig(tlsCfg: TLSConfig?)
      modifies tlsCfg
      ensures tlsCfg != null ==> tlsCfg.ticketKeys == keys
    {
      if tlsCfg == null {
        return;
      }
      var copies := GetKeys();
      tlsCfg.ticketKeys := copies;
    }

    /** Append a new key and drop the oldest beyond the number retained. A failing write is only logged. */
    method RotateKey(generated: Option<Key>, write: Write) returns (ok: bool)
      requires Valid()
      modifies this`keys, this`disk
      ensures Valid() && ok == generated.Some?
      ensures keys == Rotate(old(keys), retainKeys, generated)
      ensures disk == if ok && hasKeyFile then Disk(write, Encode(keys)) else old(disk)
      ensures ok && hasKeyFile && write.Written? ==> Saved()
      ensures old(Saved()) && !ok ==> Saved()
    {
      if generated.None? {
        return false;
      }
      keys := keys + [generated.value];
      if |keys| > retainKeys {
        keys := keys[|keys|-retainKeys..];
      }
      if hasKeyFile {
        var _ := SaveKeys(write);
      }
      ok := true;
    }
  }

  /** The life of a server: the keys are applied to the configuration once, then the timer rotates them. */
  method ApplyAndRotate(m: SessionTicketManager, tlsCfg: TLSConfig, generated: seq<Option<Key>>, write: Write)
    requires m.Valid()
    modifies m`keys, m`disk, tlsCfg
    ensures m.Valid() && m.keys == Rotations(old(m.keys), m.retainKeys, generated)
    ensures tlsCfg.ticketKeys == old(m.keys)
  {
    m.ApplyToTLSConfig(tlsCfg);
    assert generated[..0] == [];
    for i := 0 to |generated|
      invariant m.Valid() && m.keys == Rotations(old(m.keys), m.retainKeys, generated[..i])
      invariant tlsCfg.ticketKeys == old(m.keys)
    {
      assert generated[..i+1][..i] == generated[..i];
      var _ := m.RotateKey(generated[i], write);
    }
    assert generated[..|generated|] == generated;
  }

  /** A manager restarted on the file of one that had saved its keys has the same keys, or with a smaller
      retention the newest of them. */
  method Restart(m: SessionTicketManager, configuredRetain: int, write: Write)
    returns (n: SessionTicketManager)
    requires m.Valid() && m.Saved() && m.keys != []
    ensures fresh(n) && n.Valid() && n.Saved() == (n.keys == m.keys)
    ensures n.retainKeys == if configuredRetain < 2 then 3 else configuredRetain
    ensures n.keys == Newest(m.keys, n.retainKeys)
    ensures configuredRetain == m.retainKeys ==> n.keys == m.keys
  {
    n := new SessionTicketManager(configuredRetain, true, m.disk);
    LoadOfSave(m.keys, n.retainKeys);
    var _ := n.LoadOrGenerate(true, None, write);
    ChunksOfEncode(n.keys);
    ChunksOfEncode(m.keys);
  }
}
