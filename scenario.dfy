/**
 * Scenarios over the client. The first methods each drive one fresh client
 * through one step of the protocol (asking for a room, joining with a padded
 * code, negotiating, delivering a chunk). The last ones put two clients on one
 * relay. The caller plays the relay: it answers each room request itself, and
 * it passes each offer, answer and chunk that one client puts on the wire to
 * the other client's HandleMessage, until the receiver has downloaded the
 * sender's file.
 */
module Scenario {
  import opened Types
  import opened Chunking
  import opened Protocol
  import opened FileSharing

  /** The five bytes of "hello". */
  const HELLO: seq<Byte> := [104, 101, 108, 108, 111]

  /** The sender may ask for a room only once a file is selected. */
  method CreateRoomAfterSelect() returns (before: seq<Message>, roomRequest: Message)
    ensures before == []
    ensures roomRequest == CreateRoom
  {
    var sender := new P2PFileSharing();
    sender.ChannelOpened();
    sender.ShowSendSection();
    sender.CreateRoom();
    before := sender.outbox;
    sender.HandleFileSelect(Some(File("a.txt", "text/plain", HELLO)));
    sender.CreateRoom();
    roomRequest := sender.outbox[0];
  }

  /** The receiver joins with the code as typed, surrounding blanks removed; a blank code sends nothing. */
  method JoinWithPaddedCode() returns (blank: seq<Message>, joinRequest: Message)
    ensures blank == []
    ensures joinRequest == JoinRoom("ABC123")
  {
    var receiver := new P2PFileSharing();
    receiver.ChannelOpened();
    receiver.ShowReceiveSection();
    receiver.JoinRoom(" \t ");
    TrimBlank();
    blank := receiver.outbox;
    receiver.JoinRoom(" ABC123 ");
    TrimPadded();
    joinRequest := receiver.outbox[0];
  }

  /** A code of blanks and a tab trims to nothing. */
  lemma TrimBlank()
    ensures Trim(" \t ") == ""
  {
    assert SkipSpaces(" \t ", 0) == 3;
  }

  /** One blank on each side of a code is removed and the code itself kept. */
  lemma TrimPadded()
    ensures Trim(" ABC123 ") == "ABC123"
  {
    assert SkipSpaces(" ABC123 ", 0) == 1;
    assert SkipTrailingSpaces(" ABC123 ", 1, 8) == 7;
  }

  /** Negotiation: once the receiver is in the room the sender offers the file; an acceptance starts one chunk and `file-complete`. */
  method Negotiate() returns (offer: Message, firstChunk: Message, last: Message)
    ensures offer == FileOffer("a.txt", 5, "text/plain")
    ensures firstChunk == ChunkMessage(HELLO, 0) && firstChunk.totalChunks == 1
    ensures last == FileComplete(true)
  {
    var sender := new P2PFileSharing();
    sender.ChannelOpened();
    sender.HandleFileSelect(Some(File("a.txt", "text/plain", HELLO)));
    sender.StartFileSending();
    offer := sender.outbox[0];
    var reset := sender.HandleFileAnswer(true, None);
    assert ChunkCount(|HELLO|) == 1;
    assert sender.outbox == [offer, ChunkMessage(HELLO, 0), FileComplete(true)];
    firstChunk := sender.outbox[1];
    last := sender.outbox[2];
  }

  /** Delivery: the receiver shows the offered name, accepts, and the single chunk of a small file completes the buffer and downloads it. */
  method Deliver(bytes: seq<Byte>) returns (answer: Message, received: seq<Download>, report: Message)
    requires 0 < |bytes| <= CHUNK_SIZE
    ensures answer == FileAnswer(true)
    ensures received == [Download("a.txt", bytes)]
    ensures report == FileComplete(true)
  {
    var receiver := new P2PFileSharing();
    receiver.ChannelOpened();
    receiver.HandleFileOffer("a.txt");
    receiver.AcceptFile();
    answer := receiver.outbox[0];
    SingleChunkAssembles(bytes);
    var m := ChunkMessage(bytes, 0);
    receiver.HandleFileChunk(m.chunk, m.chunkIndex, m.totalChunks);
    received := receiver.downloads;
    report := receiver.outbox[1];
  }

  /** A file of at most one chunk travels as one message, and that message alone reassembles it. */
  lemma SingleChunkAssembles(bytes: seq<Byte>)
    requires 0 < |bytes| <= CHUNK_SIZE
    ensures ChunkCount(|bytes|) == 1
    ensures Assemble(map[0 := ChunkMessage(bytes, 0).chunk], 1) == Some(bytes)
  {
    var buffer := map[0 := ChunkMessage(bytes, 0).chunk];
    AssembleSentChunks(bytes, buffer, 1);
    JoinChunks(bytes);
    assert Chunks(bytes)[..1] == Chunks(bytes);
  }
  /**
   * Pairing through the relay. The sender, with a file selected, asks for a
   * room, and the relay answers `room-created` with the code it assigned. The
   * receiver types that code with blanks around it and joins, and the relay
   * answers `room-joined`. Each reply is handed to the client's HandleMessage.
   */
  method PairThroughRelay() returns (sender: P2PFileSharing, receiver: P2PFileSharing)
    ensures fresh(sender) && fresh(receiver) && sender != receiver
    ensures sender.channelOpen && receiver.channelOpen
    ensures sender.role == Some(Sender) && receiver.role == Some(Receiver)
    ensures sender.roomId == receiver.roomId == Some("ABC123")
    ensures sender.currentFile == Some(File("a.txt", "text/plain", HELLO))
    ensures sender.outbox == [CreateRoom] && receiver.outbox == [JoinRoom("ABC123")]
    ensures receiver.receivedChunks == map[] && receiver.downloads == []
  {
    sender := new P2PFileSharing();
    receiver := new P2PFileSharing();
    SenderOpensRoom(sender);
    var reset := sender.HandleMessage(RoomCreated("ABC123"), None);
    ReceiverJoins(receiver, " ABC123 ");
    TrimPadded();
    reset := receiver.HandleMessage(RoomJoined(receiver.outbox[0].roomId), None);
  }

  /** The sender's side of pairing: open socket, send mode, file chosen, room requested. */
  method SenderOpensRoom(sender: P2PFileSharing)
    requires sender.outbox == []
    modifies sender
    ensures sender.channelOpen && sender.role == Some(Sender)
    ensures sender.currentFile == Some(File("a.txt", "text/plain", HELLO))
    ensures sender.outbox == [CreateRoom]
  {
    sender.ChannelOpened();
    sender.ShowSendSection();
    sender.HandleFileSelect(Some(File("a.txt", "text/plain", HELLO)));
    sender.CreateRoom();
  }

  /** The receiver's side of pairing: open socket, receive mode, the typed code sent trimmed. */
  method ReceiverJoins(receiver: P2PFileSharing, typed: string)
    requires receiver.outbox == [] && Trim(typed) != ""
    modifies receiver
    ensures receiver.channelOpen && receiver.role == Some(Receiver)
    ensures receiver.outbox == [JoinRoom(Trim(typed))]
    ensures receiver.receivedChunks == old(receiver.receivedChunks) && receiver.downloads == old(receiver.downloads)
  {
    receiver.ChannelOpened();
    receiver.ShowReceiveSection();
    receiver.JoinRoom(typed);
  }

  /**
   * The transfer through the relay: `peer-joined` makes the sender offer, the
   * offer reaches the receiver, its acceptance reaches the sender, and the
   * sender's chunk reaches the receiver, which downloads the file. Each
   * relayed message is the one the other client put on the wire.
   */
  method TransferThroughRelay(sender: P2PFileSharing, receiver: P2PFileSharing)
    requires sender != receiver
    requires sender.channelOpen && receiver.channelOpen
    requires sender.currentFile == Some(File("a.txt", "text/plain", HELLO))
    requires sender.outbox == [CreateRoom] && receiver.outbox == [JoinRoom("ABC123")]
    requires receiver.receivedChunks == map[] && receiver.downloads == []
    modifies sender, receiver
    ensures sender.outbox == [CreateRoom, FileOffer("a.txt", 5, "text/plain"), ChunkMessage(HELLO, 0), FileComplete(true)]
    ensures receiver.outbox == [JoinRoom("ABC123"), FileAnswer(true), FileComplete(true)]
    ensures receiver.downloads == [Download("a.txt", HELLO)]
  {
    OfferReachesReceiver(sender, receiver);
    AnswerReachesSender(sender, receiver.outbox[1]);
    ChunkReachesReceiver(receiver, sender.outbox[2]);
  }

  /** `peer-joined` reaches the sender, which offers its file; the offer reaches the receiver, which accepts. */
  method OfferReachesReceiver(sender: P2PFileSharing, receiver: P2PFileSharing)
    requires sender != receiver
    requires sender.channelOpen && receiver.channelOpen
    requires sender.currentFile == Some(File("a.txt", "text/plain", HELLO))
    requires sender.outbox == [CreateRoom] && receiver.outbox == [JoinRoom("ABC123")]
    modifies sender, receiver
    ensures sender.channelOpen && receiver.channelOpen
    ensures sender.currentFile == old(sender.currentFile)
    ensures sender.outbox == [CreateRoom, FileOffer("a.txt", 5, "text/plain")]
    ensures receiver.outbox == [JoinRoom("ABC123"), FileAnswer(true)]
    ensures receiver.transferFileName == "a.txt"
    ensures receiver.receivedChunks == old(receiver.receivedChunks) && receiver.downloads == old(receiver.downloads)
  {
    var reset := sender.HandleMessage(PeerJoined, None);
    var offer := sender.outbox[1];
    reset := receiver.HandleMessage(offer, None);
    receiver.AcceptFile();
  }

  /** The receiver's acceptance reaches the sender, which streams the single chunk and reports completion. */
  method AnswerReachesSender(sender: P2PFileSharing, answer: Message)
    requires answer == FileAnswer(true)
    requires sender.channelOpen && sender.currentFile == Some(File("a.txt", "text/plain", HELLO))
    requires sender.outbox == [CreateRoom, FileOffer("a.txt", 5, "text/plain")]
    modifies sender
    ensures sender.outbox == [CreateRoom, FileOffer("a.txt", 5, "text/plain"), ChunkMessage(HELLO, 0), FileComplete(true)]
  {
    var reset := sender.HandleMessage(answer, None);
    SingleChunkAssembles(HELLO);
  }

  /** The sender's chunk reaches the receiver, whose buffer completes: it downloads the file and reports success. */
  method ChunkReachesReceiver(receiver: P2PFileSharing, chunk: Message)
    requires chunk == ChunkMessage(HELLO, 0)
    requires receiver.channelOpen && receiver.transferFileName == "a.txt"
    requires receiver.receivedChunks == map[] && receiver.downloads == []
    requires receiver.outbox == [JoinRoom("ABC123"), FileAnswer(true)]
    modifies receiver
    ensures receiver.outbox == [JoinRoom("ABC123"), FileAnswer(true), FileComplete(true)]
    ensures receiver.downloads == [Download("a.txt", HELLO)]
  {
    SingleChunkAssembles(HELLO);
    var reset := receiver.HandleMessage(chunk, None);
  }

  /** The whole exchange: what the receiver downloads is exactly the file the sender selected, under its name. */
  method Exchange() returns (received: seq<Download>)
    ensures received == [Download("a.txt", HELLO)]
  {
    var sender, receiver := PairThroughRelay();
    TransferThroughRelay(sender, receiver);
    received := receiver.downloads;
  }
}
