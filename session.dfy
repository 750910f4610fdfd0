/**
 * The browser client `P2PFileSharing`: its fields, the handlers that update
 * them, and what it hands to the socket. Each handler may change only the
 * fields its `modifies` clause names and states their new values; the larger
 * handlers state their effect on a snapshot of all fields.
 */
module FileSharing {
  import opened Types
  import opened Chunking
  import opened Protocol
  import Base64

  /** What reaches `downloadFile`: the name on the transfer panel and the reassembled bytes. */
  datatype Download = Download(fileName: string, bytes: seq<Byte>)

  /** The value of every field of the client at one moment. */
  datatype Snapshot = Snapshot(
    connectionId: Option<string>,
    roomId: Option<string>,
    role: Option<Role>,
    currentFile: Option<File>,
    fileChunks: seq<string>,
    receivedChunks: map<int, string>,
    channelOpen: bool,
    transferFileName: string,
    outbox: seq<Message>,
    downloads: seq<Download>)

  /** `send` applied to each of `ms` in turn: appended when the socket is open, dropped silently otherwise. */
  function Transmit(open: bool, outbox: seq<Message>, ms: seq<Message>): seq<Message> {
    if open then outbox + ms else outbox
  }

  /** What was sent before stays as it was; an open socket adds exactly `ms` after it, a closed one adds nothing. */
  lemma TransmitKeepsHistory(open: bool, outbox: seq<Message>, ms: seq<Message>)
    ensures var r := Transmit(open, outbox, ms);
      (open ==> |r| == |outbox| + |ms| && r[..|outbox|] == outbox && r[|outbox|..] == ms) &&
      (!open ==> r == outbox)
  {
  }

  /** Sending in two batches is sending their concatenation. */
  lemma TransmitAppend(open: bool, outbox: seq<Message>, first: seq<Message>, second: seq<Message>)
    ensures Transmit(open, Transmit(open, outbox, first), second) == Transmit(open, outbox, first + second)
  {
    if open {
      assert (outbox + first) + second == outbox + (first + second);
    }
  }

  /** The state after `assembleFile(totalChunks)`: one `file-complete` and a download when reassembly succeeds, one `file-error` otherwise. */
  function AfterAssembly(s: Snapshot, totalChunks: int): Snapshot {
    match Assemble(s.receivedChunks, totalChunks)
    case Some(bytes) =>
      s.(outbox := Transmit(s.channelOpen, s.outbox, [FileComplete(true)]),
         downloads := s.downloads + [Download(s.transferFileName, bytes)])
    case None =>
      s.(outbox := Transmit(s.channelOpen, s.outbox, [FileError(ASSEMBLY_ERROR)]))
  }

  /** The state after `handleFileChunk`: the payload stored under its index, then reassembly when the buffer size equals `totalChunks`. */
  function AfterChunk(s: Snapshot, chunk: string, chunkIndex: int, totalChunks: int): Snapshot {
    var stored := s.(receivedChunks := s.receivedChunks[chunkIndex := chunk]);
    if |stored.receivedChunks| == totalChunks then AfterAssembly(stored, totalChunks) else stored
  }

  /** The state after `goBack`: no role, room, file or chunks; the socket, the identity, the transfer panel and what was sent stay. */
  function Reset(s: Snapshot): Snapshot {
    s.(role := None, roomId := None, currentFile := None, fileChunks := [], receivedChunks := map[])
  }

  /** Going back twice is going back once, and what the session held before makes no difference. */
  lemma ResetIdempotent(s: Snapshot, t: Snapshot)
    requires s.connectionId == t.connectionId && s.channelOpen == t.channelOpen
    requires s.transferFileName == t.transferFileName && s.outbox == t.outbox && s.downloads == t.downloads
    ensures Reset(Reset(s)) == Reset(s)
    ensures Reset(s) == Reset(t)
  {
  }

  /**
   * `assembleFile` reports exactly once: one `file-complete` and one download
   * when every index below `totalChunks` holds a usable payload, one
   * `file-error` and no download otherwise; the buffer is left as it was.
   */
  lemma AssemblyOutcome(s: Snapshot, totalChunks: int)
    ensures var t := AfterAssembly(s, totalChunks);
      var ok := forall i :: 0 <= i < totalChunks ==> Usable(s.receivedChunks, i);
      t.receivedChunks == s.receivedChunks &&
      |t.downloads| == |s.downloads| + (if ok then 1 else 0) &&
      (s.channelOpen ==>
         |t.outbox| == |s.outbox| + 1 &&
         (t.outbox[|s.outbox|].FileComplete? <==> ok) &&
         (t.outbox[|s.outbox|].FileError? <==> !ok)) &&
      (!s.channelOpen ==> t.outbox == s.outbox)
  {
  }

  /**
   * Once the buffer has reached `totalChunks` entries, a repeated chunk keeps
   * its size and so sets off reassembly again, with a second report.
   */
  lemma DuplicateReassembles(s: Snapshot, chunk: string, chunkIndex: int, totalChunks: int)
    requires chunkIndex in s.receivedChunks && |s.receivedChunks| == totalChunks
    ensures AfterChunk(s, chunk, chunkIndex, totalChunks) ==
            AfterAssembly(s.(receivedChunks := s.receivedChunks[chunkIndex := chunk]), totalChunks)
  {
    StoreSize(s.receivedChunks, chunkIndex, chunk);
  }

  /** The receiver's state after `handleFileChunk` for each `file-chunk` of `ms` in order; other messages leave it alone. */
  function ReceiveAll(s: Snapshot, ms: seq<Message>): Snapshot {
    if |ms| == 0 then s
    else
      var prior := ReceiveAll(s, ms[..|ms| - 1]);
      var m := ms[|ms| - 1];
      if m.FileChunk? then AfterChunk(prior, m.chunk, m.chunkIndex, m.totalChunks) else prior
  }

  /** Before the last chunk arrives, the receiver only buffers: nothing is sent and nothing is downloaded. */
  lemma {:induction false} ReceiveBeforeLast(s: Snapshot, bytes: seq<Byte>, k: nat)
    requires s.receivedChunks == map[]
    requires k < ChunkCount(|bytes|)
    ensures ReceiveAll(s, ChunkMessages(bytes, k)) == s.(receivedChunks := Received(map[], ChunkMessages(bytes, k)))
  {
    if k > 0 {
      var ms := ChunkMessages(bytes, k);
      assert ms[..k - 1] == ChunkMessages(bytes, k - 1);
      ReceiveBeforeLast(s, bytes, k - 1);
      ReceivedSentChunks(bytes, k);
    }
  }

  /**
   * End to end through the handler: a receiver whose buffer is empty and that
   * is handed every chunk message of a non-empty file downloads exactly that
   * file, under the name on its transfer panel, and reports `file-complete`
   * once.
   */
  lemma ReceiveWholeFile(s: Snapshot, bytes: seq<Byte>)
    requires s.receivedChunks == map[]
    requires |bytes| > 0
    ensures var t := ReceiveAll(s, ChunkMessages(bytes, ChunkCount(|bytes|)));
      t.downloads == s.downloads + [Download(s.transferFileName, bytes)] &&
      t.outbox == Transmit(s.channelOpen, s.outbox, [FileComplete(true)])
  {
    var n := ChunkCount(|bytes|);
    var ms := ChunkMessages(bytes, n);
    assert ms[..n - 1] == ChunkMessages(bytes, n - 1);
    ReceiveBeforeLast(s, bytes, n - 1);
    TransferRoundTrip(bytes, n - 1);
  }

  /** A zero-byte file sends no chunk, so the receiver never reassembles it and downloads nothing. */
  lemma ZeroByteFileNotDownloaded(s: Snapshot, bytes: seq<Byte>, readFailure: Option<nat>)
    requires |bytes| == 0
    ensures ReceiveAll(s, SenderTrace(bytes, readFailure)) == s
  {
    var t := SenderTrace(bytes, readFailure);
    assert t == [FileComplete(true)];
    assert t[..0] == [];
  }

  class P2PFileSharing {
    var connectionId: Option<string>
    var roomId: Option<string>
    var role: Option<Role>
    var currentFile: Option<File>
    var fileChunks: seq<string>
    var receivedChunks: map<int, string>
    /** Whether the socket's `readyState` is OPEN. */
    var channelOpen: bool
    /** The file name on the transfer panel, which names the download. */
    var transferFileName: string
    /** Every message the socket accepted, oldest first. */
    var outbox: seq<Message>
    /** Every file handed to `downloadFile`, oldest first. */
    var downloads: seq<Download>

    function State(): Snapshot
      reads this
    {
      Snapshot(connectionId, roomId, role, currentFile, fileChunks, receivedChunks,
               channelOpen, transferFileName, outbox, downloads)
    }

    /** A fresh client whose socket is still connecting. */
    constructor ()
      ensures State() == Snapshot(None, None, None, None, [], map[], false, "", [], [])
    {
      connectionId, roomId, role, currentFile := None, None, None, None;
      fileChunks, receivedChunks := [], map[];
      channelOpen, transferFileName := false, "";
      outbox, downloads := [], [];
    }

    /** The socket's `onopen`. */
    method ChannelOpened()
      modifies this`channelOpen
      ensures channelOpen
    {
      channelOpen := true;
    }

    /** The socket's `onclose`; reconnecting later is a call to ChannelOpened. */
    method ChannelClosed()
      modifies this`channelOpen
      ensures !channelOpen
    {
      channelOpen := false;
    }

    /** `send`: the message goes out only while the socket is open. */
    method Send(m: Message)
      modifies this`outbox
      ensures outbox == Transmit(channelOpen, old(outbox), [m])
    {
      if channelOpen {
        outbox := outbox + [m];
      }
    }

    method ShowSendSection()
      modifies this`role
      ensures role == Some(Sender)
    {
      role := Some(Sender);
    }

    method ShowReceiveSection()
      modifies this`role
      ensures role == Some(Receiver)
    {
      role := Some(Receiver);
    }

    /** The back button: forget the role, room, file and every chunk, whatever the state; the socket, the identity and what was sent stay. */
    method GoBack()
      modifies this`role, this`roomId, this`currentFile, this`fileChunks, this`receivedChunks
      ensures State() == Reset(old(State()))
    {
      role := None;
      roomId := None;
      currentFile := None;
      fileChunks := [];
      receivedChunks := map[];
    }

    /** The file input's `change` event; no selection keeps the previous file. */
    method HandleFileSelect(file: Option<File>)
      modifies this`currentFile
      ensures currentFile == if file.Some? then file else old(currentFile)
    {
      if file.Some? {
        currentFile := file;
      }
    }

    /** Asks the relay for a room, but only once a file is selected. */
    method CreateRoom()
      modifies this`outbox
      ensures outbox == Transmit(channelOpen, old(outbox), if currentFile.Some? then [Protocol.CreateRoom] else [])
    {
      if currentFile.None? {
        return;
      }
      Send(Protocol.CreateRoom);
    }

    /** Asks to join the room whose code was typed, trimmed; a blank code sends nothing. */
    method JoinRoom(roomCodeInput: string)
      modifies this`outbox
      ensures var code := Trim(roomCodeInput);
        outbox == Transmit(channelOpen, old(outbox), if code == "" then [] else [Protocol.JoinRoom(code)])
    {
      var roomCode := Trim(roomCodeInput);
      if roomCode == "" {
        return;
      }
      Send(Protocol.JoinRoom(roomCode));
    }

    method HandleRoomCreated(newRoomId: string)
      modifies this`roomId
      ensures roomId == Some(newRoomId)
    {
      roomId := Some(newRoomId);
    }

    method HandleRoomJoined(newRoomId: string)
      modifies this`roomId
      ensures roomId == Some(newRoomId)
    {
      roomId := Some(newRoomId);
    }

    /** The receiver has joined: offer the selected file, if there is one. */
    method StartFileSending()
      modifies this`transferFileName, this`outbox
      ensures currentFile.None? ==> transferFileName == old(transferFileName) && outbox == old(outbox)
      ensures currentFile.Some? ==>
        var f := currentFile.value;
        transferFileName == f.name &&
        outbox == Transmit(channelOpen, old(outbox), [FileOffer(f.name, f.Size(), f.mimeType)])
    {
      if currentFile.None? {
        return;
      }
      var f := currentFile.value;
      transferFileName := f.name;
      Send(FileOffer(f.name, f.Size(), f.mimeType));
    }

    /** An offer arrived: only the transfer panel changes, showing the offered name. */
    method HandleFileOffer(fileName: string)
      modifies this`transferFileName
      ensures transferFileName == fileName
    {
      transferFileName := fileName;
    }

    method AcceptFile()
      modifies this`outbox
      ensures outbox == Transmit(channelOpen, old(outbox), [FileAnswer(true)])
    {
      Send(FileAnswer(true));
    }

    /** Declines the offer; `resetScheduled` is the timer that later calls GoBack. */
    method RejectFile() returns (resetScheduled: bool)
      modifies this`outbox
      ensures resetScheduled
      ensures outbox == Transmit(channelOpen, old(outbox), [FileAnswer(false)])
    {
      Send(FileAnswer(false));
      resetScheduled := true;
    }

    /**
     * Streams the selected file: one `file-chunk` per index in order, then
     * `file-complete`; if the FileReader rejects chunk `readFailure.value`, one
     * `file-error` in its place and nothing after it.
     */
    method SendFileChunks(readFailure: Option<nat>)
      modifies this`outbox
      ensures outbox == Transmit(channelOpen, old(outbox),
                                 if currentFile.Some? then SenderTrace(currentFile.value.bytes, readFailure) else [])
    {
      if currentFile.None? {
        return;
      }
      var bytes := currentFile.value.bytes;
      var totalChunks := ChunkCount(|bytes|);
      var i := 0;
      while i < totalChunks
        invariant i <= totalChunks
        invariant !ReadFails(readFailure, i)
        invariant outbox == Transmit(channelOpen, old(outbox), ChunkMessages(bytes, i))
      {
        if readFailure == Some(i) {
          Send(FileError(READ_ERROR));
          TransmitAppend(channelOpen, old(outbox), ChunkMessages(bytes, i), [FileError(READ_ERROR)]);
          return;
        }
        SendChunk(bytes, i);
        TransmitAppend(channelOpen, old(outbox), ChunkMessages(bytes, i), [ChunkMessage(bytes, i)]);
        ChunkMessagesSnoc(bytes, i);
        i := i + 1;
      }
      Send(FileComplete(true));
      TransmitAppend(channelOpen, old(outbox), ChunkMessages(bytes, totalChunks), [FileComplete(true)]);
    }

    /** One step of the streaming loop: slice chunk `i`, base64-encode it and send it with its index and the total. */
    method SendChunk(bytes: seq<Byte>, i: nat)
      requires i < ChunkCount(|bytes|)
      modifies this`outbox
      ensures outbox == Transmit(channelOpen, old(outbox), [ChunkMessage(bytes, i)])
    {
      var start := i * CHUNK_SIZE;
      var end := Min(start + CHUNK_SIZE, |bytes|);
      var chunk := bytes[start..end];
      var payload := Base64.Encode(chunk);
      Send(FileChunk(payload, i, ChunkCount(|bytes|)));
    }

    /** The receiver's answer: accepted starts streaming, declined schedules a reset and sends nothing. */
    method HandleFileAnswer(accepted: bool, readFailure: Option<nat>) returns (resetScheduled: bool)
      modifies this`outbox
      ensures resetScheduled == !accepted
      ensures outbox == if accepted && currentFile.Some?
                        then Transmit(channelOpen, old(outbox), SenderTrace(currentFile.value.bytes, readFailure))
                        else old(outbox)
    {
      if accepted {
        SendFileChunks(readFailure);
        resetScheduled := false;
      } else {
        resetScheduled := true;
      }
    }

    /** Rebuilds the file from indices `0..totalChunks-1` of the buffer; a missing, empty or undecodable payload reports `file-error` instead. */
    method AssembleFile(totalChunks: int)
      modifies this`outbox, this`downloads
      ensures State() == AfterAssembly(old(State()), totalChunks)
    {
      var file: seq<Byte> := [];
      var i := 0;
      while i < totalChunks
        invariant 0 <= i <= if totalChunks < 0 then 0 else totalChunks
        invariant AssemblePrefix(receivedChunks, i) == Some(file)
      {
        if i !in receivedChunks || receivedChunks[i] == "" {
          Send(FileError(ASSEMBLY_ERROR));
          AssembleStopsAt(receivedChunks, i, totalChunks);
          return;
        }
        var part := Base64.Decode(receivedChunks[i]);
        if part.None? {
          Send(FileError(ASSEMBLY_ERROR));
          AssembleStopsAt(receivedChunks, i, totalChunks);
          return;
        }
        file := file + part.value;
        i := i + 1;
      }
      assert Assemble(receivedChunks, totalChunks) == Some(file);
      downloads := downloads + [Download(transferFileName, file)];
      Send(FileComplete(true));
    }

    /** Stores one received chunk and, when the buffer size equals `totalChunks`, reassembles. */
    method HandleFileChunk(chunk: string, chunkIndex: int, totalChunks: int)
      modifies this`receivedChunks, this`outbox, this`downloads
      ensures State() == AfterChunk(old(State()), chunk, chunkIndex, totalChunks)
    {
      receivedChunks := receivedChunks[chunkIndex := chunk];
      if |receivedChunks| == totalChunks {
        AssembleFile(totalChunks);
      }
    }

    /**
     * `handleMessage`: dispatch on the message type. `readFailure` is the chunk
     * whose read fails if this message starts streaming; `resetScheduled` is
     * the timer that later calls GoBack.
     */
    method HandleMessage(m: Message, readFailure: Option<nat>) returns (resetScheduled: bool)
      modifies this`connectionId, this`roomId, this`transferFileName, this`outbox,
               this`receivedChunks, this`downloads
      ensures resetScheduled <==>
        m.PeerDisconnected? || (m.FileAnswer? && !m.accepted) || m.FileComplete? || m.FileError?
      ensures match m
        case Connection(id) => State() == old(State()).(connectionId := Some(id))
        case RoomCreated(id) => State() == old(State()).(roomId := Some(id))
        case RoomJoined(id) => State() == old(State()).(roomId := Some(id))
        case PeerJoined =>
          if currentFile.None? then State() == old(State())
          else
            var f := currentFile.value;
            State() == old(State()).(transferFileName := f.name,
                                     outbox := Transmit(channelOpen, old(outbox),
                                                        [FileOffer(f.name, f.Size(), f.mimeType)]))
        case FileOffer(name, _, _) => State() == old(State()).(transferFileName := name)
        case FileAnswer(accepted) =>
          State() == if !accepted || currentFile.None? then old(State())
                     else old(State()).(outbox := Transmit(channelOpen, old(outbox),
                                          SenderTrace(currentFile.value.bytes, readFailure)))
        case FileChunk(chunk, index, total) => State() == AfterChunk(old(State()), chunk, index, total)
        case _ => State() == old(State())
    {
      resetScheduled := false;
      match m {
        case Connection(id) =>
          connectionId := Some(id);
        case RoomCreated(id) =>
          HandleRoomCreated(id);
        case RoomJoined(id) =>
          HandleRoomJoined(id);
        case PeerJoined =>
          StartFileSending();
        case PeerDisconnected =>
          resetScheduled := true;
        case FileOffer(name, _, _) =>
          HandleFileOffer(name);
        case FileAnswer(accepted) =>
          resetScheduled := HandleFileAnswer(accepted, readFailure);
        case FileChunk(chunk, index, total) =>
          HandleFileChunk(chunk, index, total);
        case FileComplete(_) =>
          resetScheduled := true;
        case FileError(_) =>
          resetScheduled := true;
        case ServerError(_) =>
        case CreateRoom =>
        case JoinRoom(_) =>
        case Unrecognised(_) =>
      }
    }
  }

  /** Where the loop of `assembleFile` stops at index `i`, reassembly as a whole fails. */
  lemma AssembleStopsAt(buffer: map<int, string>, i: nat, totalChunks: int)
    requires i < totalChunks
    requires !Usable(buffer, i)
    ensures Assemble(buffer, totalChunks) == None
  {
  }
}
