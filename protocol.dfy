/**
 * The wire protocol between the two browsers and the relay, and the pure
 * specifications that the session's handlers are proved against: what the
 * sender emits for a file, how the receiver's buffer is filled and when
 * reassembly succeeds.
 */
module Protocol {
  import opened Types
  import opened Chunking
  import Base64

  /** A relayed JSON message, one constructor per value of its `type` field. */
  datatype Message =
    | Connection(connectionId: string)                               // "connection"
    | CreateRoom                                                     // "create-room"
    | RoomCreated(roomId: string)                                    // "room-created"
    | JoinRoom(roomId: string)                                       // "join-room"
    | RoomJoined(roomId: string)                                     // "room-joined"
    | PeerJoined                                                     // "peer-joined"
    | PeerDisconnected                                               // "peer-disconnected"
    | FileOffer(fileName: string, fileSize: int, fileType: string)   // "file-offer"
    | FileAnswer(accepted: bool)                                     // "file-answer"
    | FileChunk(chunk: string, chunkIndex: int, totalChunks: int)    // "file-chunk"
    | FileComplete(success: bool)                                    // "file-complete"
    | FileError(error: string)                                       // "file-error"
    | ServerError(message: string)                                   // "error"
    | Unrecognised(typeName: string)                                 // any other type

  /** A file picked in the file input: its name, its advisory MIME type and its contents. */
  datatype File = File(name: string, mimeType: string, bytes: seq<Byte>) {
    function Size(): nat { |bytes| }
  }

  datatype Role = Sender | Receiver

  const READ_ERROR := "Failed to process file chunk"
  const ASSEMBLY_ERROR := "Failed to assemble file"

  // ---------------------------------------------------------------------------
  // Room codes: `String.prototype.trim`

  /** ECMAScript WhiteSpace and LineTerminator code points, which `trim` removes. */
  predicate IsJsSpace(c: char) {
    c == '\t' || c == '\n' || c == '\U{000B}' || c == '\U{000C}' || c == '\r' || c == ' ' ||
    c == '\U{00A0}' || c == '\U{1680}' || ('\U{2000}' <= c <= '\U{200A}') ||
    c == '\U{2028}' || c == '\U{2029}' || c == '\U{202F}' || c == '\U{205F}' ||
    c == '\U{3000}' || c == '\U{FEFF}'
  }

  /** The first index at or after `i` that is not white space (or `|s|`). */
  function SkipSpaces(s: string, i: nat): (lo: nat)
    requires i <= |s|
    ensures i <= lo <= |s|
    ensures forall j :: i <= j < lo ==> IsJsSpace(s[j])
    ensures lo < |s| ==> !IsJsSpace(s[lo])
    decreases |s| - i
  {
    if i < |s| && IsJsSpace(s[i]) then SkipSpaces(s, i + 1) else i
  }

  /** The end of `s[lo..hi]` once its trailing white space is dropped. */
  function SkipTrailingSpaces(s: string, lo: nat, hi: nat): (end: nat)
    requires lo <= hi <= |s|
    ensures lo <= end <= hi
    ensures forall j :: end <= j < hi ==> IsJsSpace(s[j])
    ensures lo < end ==> !IsJsSpace(s[end - 1])
    decreases hi - lo
  {
    if lo < hi && IsJsSpace(s[hi - 1]) then SkipTrailingSpaces(s, lo, hi - 1) else hi
  }

  /** `code.trim()`: the code without leading and trailing white space; empty exactly when the code is all white space. */
  function Trim(s: string): (t: string)
    ensures |t| > 0 ==> !IsJsSpace(t[0]) && !IsJsSpace(t[|t| - 1])
    ensures |t| == 0 <==> forall i :: 0 <= i < |s| ==> IsJsSpace(s[i])
    ensures var lo := SkipSpaces(s, 0);
      lo + |t| <= |s| && t == s[lo..lo + |t|] &&
      forall i :: 0 <= i < |s| && !(lo <= i < lo + |t|) ==> IsJsSpace(s[i])
  {
    var lo := SkipSpaces(s, 0);
    var hi := SkipTrailingSpaces(s, lo, |s|);
    s[lo..hi]
  }

  // ---------------------------------------------------------------------------
  // Sender: the messages `sendFileChunks` hands to `send`

  /** Chunk `i` of the file as it goes on the wire. */
  function ChunkMessage(bytes: seq<Byte>, i: nat): (m: Message)
    requires i < ChunkCount(|bytes|)
    ensures m.FileChunk? && m.chunkIndex == i && m.totalChunks == ChunkCount(|bytes|)
    ensures m.chunk != ""
  {
    FileChunk(Base64.Encode(Chunk(bytes, i)), i, ChunkCount(|bytes|))
  }

  /** Each chunk's payload decodes back to exactly the bytes of that chunk. */
  lemma ChunkPayloadDecodes(bytes: seq<Byte>, i: nat)
    requires i < ChunkCount(|bytes|)
    ensures Base64.Decode(ChunkMessage(bytes, i).chunk) == Some(Chunk(bytes, i))
  {
    Base64.DecodeEncode(Chunk(bytes, i));
  }

  /** The first `k` chunk messages, in index order. */
  function ChunkMessages(bytes: seq<Byte>, k: nat): (ms: seq<Message>)
    requires k <= ChunkCount(|bytes|)
    ensures |ms| == k
  {
    seq(k, i requires 0 <= i < k => ChunkMessage(bytes, i))
  }

  /** One more chunk message extends the sequence at its end. */
  lemma ChunkMessagesSnoc(bytes: seq<Byte>, i: nat)
    requires i < ChunkCount(|bytes|)
    ensures ChunkMessages(bytes, i + 1) == ChunkMessages(bytes, i) + [ChunkMessage(bytes, i)]
  {
  }

  /** Whether the FileReader rejects some chunk of a file with `n` chunks. */
  predicate ReadFails(readFailure: Option<nat>, n: nat) {
    readFailure.Some? && readFailure.value < n
  }

  /**
   * Everything `sendFileChunks` tries to send for `bytes`, when the FileReader
   * rejects chunk `readFailure.value` (if any): the chunks in index order, then
   * one `file-complete`, or, when a read fails, the chunks before it and one
   * `file-error`.
   */
  function SenderTrace(bytes: seq<Byte>, readFailure: Option<nat>): seq<Message> {
    var n := ChunkCount(|bytes|);
    if ReadFails(readFailure, n) then ChunkMessages(bytes, readFailure.value) + [FileError(READ_ERROR)]
    else ChunkMessages(bytes, n) + [FileComplete(true)]
  }

  /**
   * The sender's trace is the chunk messages with indices 0, 1, ... in order,
   * all naming the same total, then exactly one final report: `file-complete`
   * after all `ceil(size / chunkSize)` chunks, or `file-error` in place of the
   * chunk whose read failed.
   */
  lemma SenderTraceShape(bytes: seq<Byte>, readFailure: Option<nat>)
    ensures var t := SenderTrace(bytes, readFailure);
      var n := ChunkCount(|bytes|);
      |t| == (if ReadFails(readFailure, n) then readFailure.value else n) + 1 &&
      (forall i :: 0 <= i < |t| - 1 ==>
         t[i].FileChunk? && t[i].chunkIndex == i && t[i].totalChunks == n) &&
      t[|t| - 1] == (if ReadFails(readFailure, n) then FileError(READ_ERROR) else FileComplete(true))
  {
  }

  /** A successful trace never reports an error, a failed one never reports completion, and each carries exactly one final report. */
  lemma SenderTraceReportsOnce(bytes: seq<Byte>, readFailure: Option<nat>)
    ensures var t := SenderTrace(bytes, readFailure);
      forall i :: 0 <= i < |t| ==>
        (t[i].FileComplete? || t[i].FileError? <==> i == |t| - 1) &&
        (t[i].FileComplete? ==> !ReadFails(readFailure, ChunkCount(|bytes|))) &&
        (t[i].FileError? ==> ReadFails(readFailure, ChunkCount(|bytes|)))
  {
  }

  /** A zero-byte file yields no chunk at all, only the final report. */
  lemma EmptyFileTrace(f: File, readFailure: Option<nat>)
    requires f.Size() == 0
    ensures SenderTrace(f.bytes, readFailure) == [FileComplete(true)]
  {
  }

  // ---------------------------------------------------------------------------
  // Receiver: the reassembly buffer of `handleFileChunk` and `assembleFile`

  /** The buffer after storing each chunk message of `ms` in order; a later payload for an index replaces an earlier one. */
  function Received(buffer: map<int, string>, ms: seq<Message>): map<int, string> {
    if |ms| == 0 then buffer
    else
      var prior := Received(buffer, ms[..|ms| - 1]);
      var m := ms[|ms| - 1];
      if m.FileChunk? then prior[m.chunkIndex := m.chunk] else prior
  }

  /** Storing an index already present leaves the buffer size unchanged; a new index grows it by one. */
  lemma StoreSize(buffer: map<int, string>, index: int, payload: string)
    ensures |buffer[index := payload]| == if index in buffer then |buffer| else |buffer| + 1
  {
    if index in buffer {
      assert buffer[index := payload].Keys == buffer.Keys;
    } else {
      assert buffer[index := payload].Keys == buffer.Keys + {index};
    }
  }

  /** Index `i` holds a payload that `!chunk` lets through and `atob` accepts. */
  predicate Usable(buffer: map<int, string>, i: int) {
    i in buffer && buffer[i] != "" && Base64.Decode(buffer[i]).Some?
  }

  /** The decoded payloads of indices `0..k-1` joined in index order, or None at the first unusable index. */
  function AssemblePrefix(buffer: map<int, string>, k: nat): (r: Option<seq<Byte>>)
    ensures r.Some? <==> forall i :: 0 <= i < k ==> Usable(buffer, i)
  {
    if k == 0 then Some([])
    else
      match AssemblePrefix(buffer, k - 1)
      case None => None
      case Some(acc) =>
        if k - 1 !in buffer || buffer[k - 1] == "" then
          assert !Usable(buffer, k - 1);
          None
        else match Base64.Decode(buffer[k - 1])
          case None =>
            assert !Usable(buffer, k - 1);
            None
          case Some(part) => Some(acc + part)
  }

  /** `assembleFile(totalChunks)`: the file's bytes, or None where it throws and reports `file-error`. */
  function Assemble(buffer: map<int, string>, totalChunks: int): (r: Option<seq<Byte>>)
    ensures r.Some? <==> forall i :: 0 <= i < totalChunks ==> Usable(buffer, i)
  {
    AssemblePrefix(buffer, if totalChunks < 0 then 0 else totalChunks)
  }

  /** A buffer holding the sender's payloads for indices below `k` reassembles to the first `k` chunks of the file. */
  lemma {:induction false} AssembleSentChunks(bytes: seq<Byte>, buffer: map<int, string>, k: nat)
    requires k <= ChunkCount(|bytes|)
    requires forall i :: 0 <= i < k ==> i in buffer && buffer[i] == ChunkMessage(bytes, i).chunk
    ensures AssemblePrefix(buffer, k) == Some(Concat(Chunks(bytes)[..k]))
  {
    if k > 0 {
      var cs := Chunks(bytes);
      AssembleSentChunks(bytes, buffer, k - 1);
      ChunkPayloadDecodes(bytes, k - 1);
      assert buffer[k - 1] == ChunkMessage(bytes, k - 1).chunk != "";
      assert AssemblePrefix(buffer, k) == Some(Concat(cs[..k - 1]) + Chunk(bytes, k - 1));
      assert cs[..k][..k - 1] == cs[..k - 1];
      assert cs[..k][k - 1] == Chunk(bytes, k - 1);
    }
  }

  function IndexRange(n: nat): (s: set<int>)
    ensures |s| == n
    ensures forall i :: i in s <==> 0 <= i < n
  {
    if n == 0 then {} else
      var s := IndexRange(n - 1) + {n - 1};
      assert IndexRange(n - 1) * {n - 1} == {};
      s
  }

  /**
   * The size trigger `receivedChunks.size === totalChunks` with every index of
   * `0..totalChunks-1` present means the buffer holds exactly those indices.
   */
  lemma SizeTriggerExact(buffer: map<int, string>, total: nat)
    requires |buffer| == total
    requires forall i :: 0 <= i < total ==> i in buffer
    ensures buffer.Keys == IndexRange(total)
  {
    var r := IndexRange(total);
    assert r <= buffer.Keys;
    var extra := buffer.Keys - r;
    assert buffer.Keys == r + extra;
    assert r * extra == {};
    assert |buffer.Keys| == |r| + |extra|;
  }

  /**
   * A stale index outside `0..totalChunks-1` can make the size trigger fire
   * with a chunk missing; the per-index check of `assembleFile` then fails.
   */
  lemma StaleIndexFailsAssembly(buffer: map<int, string>, total: nat, stale: int)
    requires |buffer| == total
    requires stale in buffer && (stale < 0 || total <= stale)
    ensures Assemble(buffer, total) == None
  {
    if Assemble(buffer, total).Some? {
      forall i | 0 <= i < total
        ensures i in buffer
      {
        assert Usable(buffer, i);
      }
      SizeTriggerExact(buffer, total);
      assert false;
    }
  }

  /** The receiver's buffer after the first `k` chunk messages of the sender, starting from an empty buffer: exactly indices `0..k-1`, each holding its payload. */
  lemma {:induction false} ReceivedSentChunks(bytes: seq<Byte>, k: nat)
    requires k <= ChunkCount(|bytes|)
    ensures var b := Received(map[], ChunkMessages(bytes, k));
      b.Keys == IndexRange(k) && |b| == k &&
      forall i :: 0 <= i < k ==> b[i] == ChunkMessage(bytes, i).chunk
  {
    var ms := ChunkMessages(bytes, k);
    if k > 0 {
      assert ms[..k - 1] == ChunkMessages(bytes, k - 1);
      ReceivedSentChunks(bytes, k - 1);
      var prior := Received(map[], ms[..k - 1]);
      var m := ms[k - 1];
      assert m == ChunkMessage(bytes, k - 1);
      assert Received(map[], ms) == prior[k - 1 := m.chunk];
      assert prior[k - 1 := m.chunk].Keys == IndexRange(k - 1) + {k - 1};
    }
  }

  /**
   * End to end: a receiver with an empty buffer that stores the sender's chunk
   * messages one by one sees the size trigger fire on the last chunk and on no
   * earlier one, and reassembly then yields exactly the sent file.
   */
  lemma TransferRoundTrip(bytes: seq<Byte>, j: nat)
    requires j < ChunkCount(|bytes|)
    ensures |Received(map[], ChunkMessages(bytes, j + 1))| == ChunkCount(|bytes|) <==> j == ChunkCount(|bytes|) - 1
    ensures j == ChunkCount(|bytes|) - 1 ==>
      Assemble(Received(map[], ChunkMessages(bytes, j + 1)), ChunkCount(|bytes|)) == Some(bytes)
  {
    var b := Received(map[], ChunkMessages(bytes, j + 1));
    assert |b| == j + 1 by {
      ReceivedSentChunks(bytes, j + 1);
    }
    if j == ChunkCount(|bytes|) - 1 {
      ReassembleWholeFile(bytes);
    }
  }

  /** Reassembling the buffer that all of the sender's chunk messages fill gives back the file. */
  lemma ReassembleWholeFile(bytes: seq<Byte>)
    ensures Assemble(Received(map[], ChunkMessages(bytes, ChunkCount(|bytes|))), ChunkCount(|bytes|)) == Some(bytes)
  {
    var n := ChunkCount(|bytes|);
    var b := Received(map[], ChunkMessages(bytes, n));
    ReceivedSentChunks(bytes, n);
    AssembleSentChunks(bytes, b, n);
    JoinChunks(bytes);
    assert Chunks(bytes)[..n] == Chunks(bytes);
  }
}
