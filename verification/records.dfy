/**
 The records the registration core works on: the host descriptor, the shared
 service infos record, the credential pair, and the operations it issues
 against the key-value store. Only the fields the registration code reads or
 writes are kept.
 */
module Records {

  /** The conventional optional value; `None` stands for a nil pointer. */
  datatype Option<+T> = None | Some(value: T)

  /** A (user, password) pair. The two fields always change together. */
  datatype Credentials = Credentials(user: string, password: string)

  /** One running instance of a service. */
  datatype Host = Host(name: string, publicHostname: string, user: string, password: string)
  {
    function Creds(): Credentials {
      Credentials(user, password)
    }

    function WithCreds(c: Credentials): Host {
      this.(user := c.user, password := c.password)
    }
  }

  /** The record shared by every instance of one service. */
  datatype Infos = Infos(name: string, publicHostname: string, user: string, password: string)
  {
    function Creds(): Credentials {
      Credentials(user, password)
    }

    function WithCreds(c: Credentials): Infos {
      this.(user := c.user, password := c.password)
    }
  }

  /** Lifetime, in seconds, of a liveness key; the heartbeat fires one second earlier. */
  const HeartbeatDuration: nat := 5

  const IndexLimit: int := 0x1_0000_0000_0000_0000

  /** A store modification index, an unsigned 64-bit integer. */
  type Index = x: int | 0 <= x < IndexLimit

  /** A request sent to the store. `ttl == None` means the key never expires. */
  datatype StoreOp =
    | Set(key: string, value: string, ttl: Option<nat>)
    | Delete(key: string, recursive: bool)

  /** Concatenation regroups freely; stated once so that large contexts need not rediscover it. */
  lemma AppendAssoc<T>(a: seq<T>, b: seq<T>, c: seq<T>)
    ensures a + b + c == a + (b + c)
  {
  }

  /** Number of delete requests in an operation log. */
  function Deletes(ops: seq<StoreOp>): nat
    decreases |ops|
  {
    if |ops| == 0 then 0
    else Deletes(ops[..|ops| - 1]) + (if ops[|ops| - 1].Delete? then 1 else 0)
  }

  lemma {:induction false} DeletesAppend(a: seq<StoreOp>, b: seq<StoreOp>)
    ensures Deletes(a + b) == Deletes(a) + Deletes(b)
    decreases |b|
  {
    if |b| == 0 {
      assert a + b == a;
    } else {
      var b' := b[..|b| - 1];
      assert (a + b)[..|a + b| - 1] == a + b';
      DeletesAppend(a, b');
    }
  }
}
