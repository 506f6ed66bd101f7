# Data-repair queue, modelled in Dafny

This project models the data-repair queue of a distributed storage network
(`pkg/datarepair/queue/queue.go`). A health checker enqueues *injured
segments* (a segment path plus the indices of its lost erasure-coded pieces)
and repair workers dequeue them one at a time. The queue keeps no state of
its own. Every job lives in an ordered key-value store. The key is 12 bytes:
the enqueue time in nanoseconds as 8 big-endian bytes, then a 4-byte random
token. So listing the store smallest-key-first gives the job with the
earliest clock reading. That is the oldest job only while the clock is
stable and a single machine enqueues, a caveat the code itself records at
`queue.go:63`.

Files and modules:

- `options.dfy` (`Options`): the `Option` datatype.
- `bytes.dfy` (`Bytes`): the Go integer widths as subset types, and the
  `uint64(...)` and int32 bit-pattern conversions. Also the big-endian layout
  (`BigEndian`, as written by `binary.BigEndian.PutUint64`) with its inverse.
- `byteorder.dfy` (`ByteOrder`): lexicographic order on byte strings, which
  is the order the store lists keys in. Proofs that it is a strict total
  order, the smallest key of a key set, and the lemma that big-endian
  encoding turns numeric order into key order.
- `segment.dfy` (`Segment`): `InjuredSegment`, its zero value, and an
  encoder/decoder pair (`Marshal`/`Unmarshal`) with its round trip.
- `storage.dfy` (`Storage`): the key-value store at its interface. `Put`,
  `Delete` and a one-item smallest-first listing, over a `map` field.
- `queue.dfy` (`RepairQueue`): key construction, the `Queue` class with
  `Enqueue` and `Dequeue`, and the functions `Enqueued` and `Dequeued`.
  These two give each call's outcome from the store before the call and
  from the environment's choices. The methods are proved to follow them.
- `properties.dfy` (`QueueProperties`): properties that span several calls.
  These are FIFO order, enqueue-then-dequeue, redelivery after a failed
  delete, blocking on an undecodable entry, and overwriting on a key collision.

Inputs that come from outside the program are parameters of the methods:

- the clock reading (`nanos: int64`, the value of `time.Now().UnixNano()`);
- the token (`Option<Token>`, with `None` for a failed random read). The Go
  `math/rand.Read` is documented never to return an error, so the program
  never takes this branch (`queue.go:68-71`). The model keeps the branch
  because the code has it;
- whether marshalling fails;
- whether each store operation (`Put`, `Delete`, the listing) fails.

A store operation that fails changes nothing.

On two points the code is narrower than a first reading suggests, and the model follows the code:

- The token comes from `math/rand`, not from a cryptographic source. The
  model treats it as an arbitrary input and claims nothing about randomness
  or key uniqueness.
- The timestamp is an `int64` cast to `uint64`. Keys therefore order by the
  unsigned bit pattern. A pre-1970 reading sorts after every reading from
  1970 on (`PreEpochKeysListLast`). Readings on the same side of 1970 keep
  their order (`KeyOrder`).

## Model

| member | source | states |
|---|---|---|
| Bytes.AsUint64 | pkg/datarepair/queue/queue.go:65 | the cast of the nanosecond clock to uint64 keeps non-negative readings and maps a negative reading t to t + 2^64, in the upper half |
| Bytes.AsUint64Injective | pkg/datarepair/queue/queue.go:65 | no two int64 clock readings share a uint64 bit pattern |
| Bytes.BigEndian | pkg/datarepair/queue/queue.go:62-65 | a number below 256^w is written as exactly w bytes, most significant first |
| Bytes.FromBigEndianOfBigEndian | pkg/datarepair/queue/queue.go:65 | decoding the bytes PutUint64 writes gives back the number |
| Bytes.BigEndianOfFromBigEndian | pkg/datarepair/queue/queue.go:65 | every w-byte string is the big-endian form of exactly one number, so the layout is a bijection |
| ByteOrder.LessIrreflexive | pkg/datarepair/queue/queue.go:89 | no key sorts before itself in the store's listing order |
| ByteOrder.LessAsymmetric | pkg/datarepair/queue/queue.go:89 | two keys never sort before each other |
| ByteOrder.LessTransitive | pkg/datarepair/queue/queue.go:89 | the listing order is transitive |
| ByteOrder.LessTotal | pkg/datarepair/queue/queue.go:89 | any two distinct keys are ordered, so a smallest key is well defined |
| ByteOrder.LessSameLengthPrefix | pkg/datarepair/queue/queue.go:72 | appending tokens to two equal-length date prefixes keeps their order |
| ByteOrder.LeastExists | pkg/datarepair/queue/queue.go:89 | every non-empty store has a key smaller than all its other keys |
| ByteOrder.LeastUnique | pkg/datarepair/queue/queue.go:89 | that smallest key is unique |
| ByteOrder.Smallest | pkg/datarepair/queue/queue.go:89 | the key a limit-1 listing returns first is in the store and below every other key |
| ByteOrder.BigEndianOrder | pkg/datarepair/queue/queue.go:65 | a smaller number has a big-endian form that lists earlier |
| Segment.ParseVarintOfVarint | pkg/datarepair/queue/queue.go:73 | the decoder reads back the path length the encoder wrote, whatever follows it |
| Segment.DecodePiecesOfEncodePieces | pkg/datarepair/queue/queue.go:73 | lost piece indices, negative ones included, survive encoding and decoding |
| Segment.MarshalRoundTrip | pkg/datarepair/queue/queue.go:100 | unmarshalling a marshalled job yields that job |
| Segment.MarshalInjective | pkg/datarepair/queue/queue.go:73 | distinct jobs are stored as distinct values |
| Storage.Store.Put | pkg/datarepair/queue/queue.go:77 | a successful Put maps the key to the value; a failed one changes nothing |
| Storage.Store.Delete | pkg/datarepair/queue/queue.go:104 | a successful Delete removes the key; a failed one changes nothing |
| Storage.Store.ListFirst | pkg/datarepair/queue/queue.go:89 | the listing fails only when told to; otherwise it returns nothing exactly for an empty store, else the least key and its value |
| RepairQueue.EncodeKey | pkg/datarepair/queue/queue.go:61-72 | the key is 12 bytes; its first 8 decode to the uint64 clock reading and its last 4 are the token |
| RepairQueue.EncodeKeyInjective | pkg/datarepair/queue/queue.go:61-72 | equal keys come only from an equal clock reading and an equal token |
| RepairQueue.KeyOrder | pkg/datarepair/queue/queue.go:63-72 | for readings a < b on the same side of the epoch, the key built at a lists before the key built at b, whatever the tokens |
| RepairQueue.PreEpochKeysListLast | pkg/datarepair/queue/queue.go:65 | a negative reading's key lists after every non-negative reading's key |
| RepairQueue.Enqueued | pkg/datarepair/queue/queue.go:58-82 | success exactly when the token read, marshalling and Put all succeed; a failed token read, marshal or Put gives its own error and leaves the store as it was; on success exactly one key is added or overwritten, it holds the marshalled job, which decodes back to the job, and every other entry is unchanged |
| RepairQueue.Dequeued | pkg/datarepair/queue/queue.go:85-109 | a listing failure gives ListError, and an empty store (and only that) gives EmptyDatabase; every error except a failed Delete comes with the zero job; a job is returned only if it decodes from the value under the smallest key; an undecodable value gives UnmarshalError and the key is kept; a decodable smallest value is always returned, with DeleteError and the entry kept when the Delete fails, and with no error and exactly that key removed otherwise; nothing else ever removes an entry |
| RepairQueue.Queue.constructor | pkg/datarepair/queue/queue.go:50-55 | the queue wraps the given store, which other holders may share |
| RepairQueue.Queue.Enqueue | pkg/datarepair/queue/queue.go:58-82 | the returned error and the new store contents are those Enqueued gives for the old contents |
| RepairQueue.Queue.Dequeue | pkg/datarepair/queue/queue.go:85-109 | the returned job, the error and the new store contents are those Dequeued gives for the old contents |
| QueueProperties.KeysAscending | pkg/datarepair/queue/queue.go:65 | strictly increasing clock readings, all on the same side of the epoch, give keys in ascending listing order |
| QueueProperties.EnqueueAllHolds | pkg/datarepair/queue/queue_test.go:58-66 | when the jobs' keys are in strictly ascending order (so all distinct), successful enqueues into an empty store leave exactly those keys, each holding its job's encoding |
| QueueProperties.DequeueHead | pkg/datarepair/queue/queue.go:89-108 | on a store laid out in ascending key order, one Dequeue succeeds, returns the first job and leaves the rest laid out |
| QueueProperties.DequeueAllInOrder | pkg/datarepair/queue/queue_test.go:67-71 | dequeueing such a store hands out every job in key order and leaves it empty |
| QueueProperties.Fifo | pkg/datarepair/queue/queue_test.go:53-72 | N enqueues at strictly increasing clock readings on one side of the epoch, then N dequeues, return the N jobs in enqueue order without error and empty the store, whatever the tokens |
| QueueProperties.EnqueueThenDequeue | pkg/datarepair/queue/queue_test.go:19-32 | a job enqueued into an empty store is returned unchanged by the next Dequeue, which empties the store |
| QueueProperties.ListFailureKeepsJob | pkg/datarepair/queue/queue_test.go:42-51 | a failing listing after a successful Enqueue gives an error and the zero job, and the job stays queued |
| QueueProperties.DeleteFailureRedelivers | pkg/datarepair/queue/queue.go:104-107 | when the smallest entry decodes, a Dequeue whose Delete fails reports DeleteError and keeps the store, and the next Dequeue returns the same job without error |
| QueueProperties.UndecodableHeadBlocks | pkg/datarepair/queue/queue.go:99-103 | an undecodable smallest entry makes every following Dequeue fail with UnmarshalError |
| QueueProperties.CollidingKeysOverwrite | pkg/datarepair/queue/queue.go:77 | two enqueues with the same clock reading and token leave one entry, and the first job is lost |

## Left out

- The mutex (`queue.go:41`, `59-60`, `86-87`): calls are modelled as sequential.
  The concurrent test `TestParallel` is not modelled.
- `Config.Run` (`queue.go:32-37`): an empty stub.
- The `RepairQueue` Go interface (`queue.go:21-24`) is not modelled on its
  own. The `Queue` class has both of its operations.
- The wall clock and `math/rand.Read`: both are parameters. Nothing is
  claimed about the token being random or about keys being unique.
- Protobuf: `Marshal`/`Unmarshal` are a stand-in codec, not the protobuf
  wire format. The stand-in writes a varint path length, the path bytes, and
  each piece as 4 big-endian bytes. Its varint has no 10-byte limit. Paths
  are byte strings, and UTF-8 validity is not checked. A marshal failure is
  an injected parameter, because the stand-in encoder cannot fail.
- The key-value store is modelled only at its interface. `storage.ListV2`
  becomes `ListFirst`, which scans the key set. Its `Recursive`/`Limit`
  options and its "more" flag are left out. Store errors carry no cause.
  Whether `Delete` of a missing key fails is not modelled: `Dequeue` only
  deletes a key it has just listed.
- Error messages: only the kind of each error is modelled, not its text.
- `pkg/satellite/auth/authentication.go` is not part of this model. It is a
  gRPC interceptor built on library calls.
- Fifo: proved only when all clock readings fall on the same side of 1970.
  Across that boundary the uint64 cast reverses the order
  (`PreEpochKeysListLast`). Only the sequential test's setting is covered:
  an empty store and no failures.
