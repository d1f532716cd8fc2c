/** The submission side of the ring: user data and the queue of entries.
    The io_uring crate is foreign code; its queue is modelled by what `push` and
    `sync` do to the program's view of it. */
module Ring {
  import opened Prelude

  /** What a request is for. */
  datatype RequestKind = Write | Read | Timeout
  {
    function IntoBits(): nat {
      match this
      case Write => 0
      case Read => 1
      case Timeout => 2
    }

    /** None where the source panics. */
    static function FromBits(value: nat): Option<RequestKind> {
      if value == 0 then Some(Write)
      else if value == 1 then Some(Read)
      else if value == 2 then Some(Timeout)
      else None
    }
  }

  /** The tag an entry carries and its completions return. */
  datatype UserData = UserData(slot: u16, kind: RequestKind)

  const SLOT_VALUES: nat := 0x1_0000

  /** The bit field: the slot in the low sixteen bits, the kind above them. */
  function Pack(u: UserData): (bits: u64) {
    u.slot + SLOT_VALUES * u.kind.IntoBits()
  }

  function Unpack(bits: u64): Option<UserData> {
    var kind := RequestKind.FromBits(bits / SLOT_VALUES);
    if kind.None? then None else Some(UserData(bits % SLOT_VALUES, kind.value))
  }

  /** Packing is a bijection onto the words that unpack: no tag is confused with
      another, and a word unpacks to `u` only if it is the packing of `u`. */
  lemma PackBijective(bits: u64, u: UserData)
    ensures Unpack(bits) == Some(u) <==> bits == Pack(u)
  {
    assert Pack(u) / SLOT_VALUES == u.kind.IntoBits() && Pack(u) % SLOT_VALUES == u.slot;
    assert bits == SLOT_VALUES * (bits / SLOT_VALUES) + bits % SLOT_VALUES;
  }

  /** The submission queue as the program sees it. `pending` is published to the
      kernel and not yet consumed, `unpublished` was pushed since the last sync,
      and `lag` counts the entries consumed since the program last looked. */
  datatype SubmissionQueue = SubmissionQueue(
    capacity: nat,
    lag: nat,
    pending: seq<UserData>,
    unpublished: seq<UserData>)
  {
    /** Occupancy in the program's own view, which still counts what lags. */
    function Occupied(): nat {
      lag + |pending| + |unpublished|
    }

    /** None when the queue looks full. */
    function Push(u: UserData): Option<SubmissionQueue> {
      if Occupied() < capacity then Some(this.(unpublished := unpublished + [u])) else None
    }

    /** Publishes the new tail and reloads the head. */
    function Sync(): SubmissionQueue {
      this.(lag := 0, pending := pending + unpublished, unpublished := [])
    }

    /** The kernel takes the first `n` published entries. */
    function Consume(n: nat): SubmissionQueue
      requires n <= |pending|
    {
      this.(lag := lag + n, pending := pending[n..])
    }
  }
}
