# Verification of the QNet session protocol

A Dafny model of one client/server session of the length-prefixed TCP protocol: the 40-byte header,
the READ and WRITE loops and threads on both ends, the command tables on the heap, the server's
request handlers, and the stop-and-wait file download with its progress meter. Check it with
`dafny verify dfyconfig.toml`.

## How it is built

Code that works in place is modelled in place, each method against a specification:

- `Wrappers` holds Option. `NetProtocol` is the header codec, down to the bytes that a store through a struct field leaves on
  a little-endian host. `Framing` is what a frame is, and the header-then-body reader as a function
  of the chunks that arrive.
- `Transport` stands for what is not in the repository: the stream socket, with arbitrary partial
  results and failures, and the sliding window.
- `TcpServer` and `TcpClient` are the socket sides of the two endpoints: READ, WRITE, the receive and
  send threads, login, the packet builders and the heartbeat counter.
- `CommandLists`, `ServerRegistry` and `ClientRegistry` are the two linked-list command tables, as
  heap nodes that refine a table; `Dispatch` and `ClientDispatch` tie them to the switches in front
  of them and to each other.
- `FileList` and `AntProtocol` are the request handlers. `FileClient` is the sample client's half of
  a download and `Meter` its progress meter.

Threads that interleave are step systems over values:

- `Pipe` is one direction of the connection: append, dequeue, send k bytes, receive k bytes, fail,
  deliver, dispatch, in any order; `Turns` puts the threads' turns together from such steps and shows
  that the contracts of the methods above allow nothing else.
  `Producers` adds the second producer of the server's send window, with appends that copy piece by
  piece under the mutex.
- `Exchange` is the download apart from the network. `Session` runs it over two pipes beside login,
  other commands, heartbeats and video, and shows that each step is a step of the exchange or
  invisible to it; the steps of the endpoints are the contracts of the methods above (`Answers` for
  the server's command thread, `AfterChunk` for the client's callback).
- `Strays` is what becomes of that when the client's READ fails: its result is ignored, a packet that
  the server never sent is appended, and a dispatcher that is past its test of `quit` takes it. Safety
  and totality of dispatch hold until then; the module says exactly when they survive it, in terms of
  the bytes that had arrived.
- `WireFormat` writes the packets and tables out in numerals, as equivalences with the predicates that
  both ends are specified by, so that the two cannot agree on a layout that is not that of the structs.
- `Answerability` shows that every relation the steps are made of can be met, in any file system.
  `Threads` takes the contracts of the command thread, the dispatcher and login to the steps of
  `Session`, as `Turns` does for the pipes.
- `Completion` is liveness: a lexicographic rank (chunks left, where the chunk under way is, work left
  in the pipe it is in, answers held back) that the helpful thread lowers and no other step raises.
  `Scheduling` constructs behaviours that meet its hypotheses.

## What is assumed

- A sliding window is an unbounded FIFO of byte strings: appending copies, and a dequeue returns one
  whole entry or nothing. Frames fit the buffers they are read into.
- The wire is a lossless byte stream. A send or recv that failed has failed for good. One failure is
  not permanent in the code: a select timeout in the WRITE of login's acknowledgement sets quit
  (QNetTcpServer.cpp:198, 603), which `server_start` resets (QNetTcpServer.cpp:363), so that frames
  can follow a torn acknowledgement. Runs with such a timeout are not considered.
- The client's first packet has the 76 bytes that login reads (`LoginAlignment` says what happens
  otherwise) and is not one of the transfer; whether it is a login, and a good one, is open.
- The acknowledgement of a LOGOUT command makes the sample client close its connection. Safety does
  not depend on it; for liveness the client does not log out.
- The header layout is that of the usual 64-bit ABI on a little-endian host.
- One `file_start` that succeeds, on a file that does not change and is shorter than 4 GiB, and then
  one transfer per connection. Before it the server's FILE pointer is NULL.
- `fread` returns as many bytes as it is asked for or are left; `fwrite` takes all it is given; a
  directory is a finite sequence of entries whose names fit the slots.

Where the code and its comments differ the code is followed: the loop that a comment in
QNetClient.cpp:459 gives 100 ms a turn waits one millisecond, and the header comments in
net_protocol.h:54-55 give two bytes to fields that have four. Two properties one might expect of the
meter fail for some file sizes; `Meter` says for exactly which.

## Model

| member | source | states |
|---|---|---|
| NetProtocol.NetworkOrder16 | net_protocol.h:70-71 | A 16-bit field holds what htons stores exactly if ntohs of the loaded field gives the value back |
| NetProtocol.NetworkOrder32 | net_protocol.h:69-72 | The same for 32-bit fields, htonl and ntohl, in both directions |
| NetProtocol.BigEndian32 | net_protocol.h:69-69 | A stored 32-bit field has its most significant byte first, and htonl is its own inverse |
| NetProtocol.HeadFields | net_protocol.h:47-83 | Which bytes of the 40-byte header carry which field, at the offsets the 64-bit field's alignment gives |
| NetProtocol.WriteHeadFields | net_protocol.h:64-78 | The eleven field stores leave exactly the header bytes and do not touch the payload behind them |
| NetProtocol.WriteHead | net_protocol.h:82-83 | HEAD_PKG writes the header for type, subtype and length, with version, hardware, Sn and reserved fields zero |
| NetProtocol.HeaderRoundTrip | net_protocol.h:47-83 | For every type, subtype and length the receivers decode what was encoded; Length is big endian; all other fields are the magic or zero |
| NetProtocol.HeaderDetermined | net_protocol.h:47-83 | Conversely, a header with the fixed fields is the encoding of what it decodes to |
| NetProtocol.HeaderInjective | net_protocol.h:82-83 | Different triples never have the same header |
| NetProtocol.DataTypeIsShifted | net_protocol.h:74-74 | DataType goes through htons into a 32-bit field, so reading it as the other 32-bit fields gives it back if and only if it is zero |
| Framing.PacketDecodes | QNetTcpServer.cpp:219-221 | A packet that HEAD_PKG made is a well-formed frame and decodes to its own pair |
| Framing.ReaderAligned | QNetTcpServer.cpp:250-274 | A reader that never asks for more than its header announces stays inside the frame it is at; its buffer is complete exactly when it holds that frame. Alignment follows from the stream, not from the magic bytes |
| Framing.UniqueFrames | QNetTcpServer.cpp:250-274 | A byte stream parses into at most one list of frames |
| Framing.SegmentationIndependence | QNetTcpServer.cpp:248-275 | However the stream is cut into recv results, what is delivered is a prefix of the frames in order, the buffer a proper beginning of the next, nothing is lost, and once all bytes are read exactly the frames were delivered |
| Framing.EnoughReads | QNetTcpServer.cpp:627-662 | As many non-empty recv results as there are bytes leave nothing unread |
| TcpServer.QNetTcpServer.Read | QNetTcpServer.cpp:621-665 | READ fills the buffer with the next len bytes of the stream, or returns -1 having taken fewer; quit becomes 1 if and only if a select timed out, a failed recv leaves it alone |
| TcpServer.QNetTcpServer.Write | QNetTcpServer.cpp:578-620 | WRITE puts the whole buffer on the wire, or returns -1 with a proper beginning of it there; quit becomes 1 if and only if a select timed out |
| TcpServer.QNetTcpServer.ReceiveFrame | QNetTcpServer.cpp:248-275 | One turn of the receive thread moves exactly the next frame to the receive window, or nothing and sets quit |
| TcpServer.QNetTcpServer.RunRecvCmd | QNetTcpServer.cpp:243-287 | The receive loop, with failures at any byte and quit set by the send thread at any time, has put exactly the frames whose last byte was read into the window when it stops; a frame cut short is not among them |
| TcpServer.QNetTcpServer.Login | QNetTcpServer.cpp:161-202 | login takes at most 76 bytes, accepts exactly the right command with the right credentials, and writes (a beginning of) one acknowledgement with the matching state |
| TcpServer.QNetTcpServer.RunSubServer | QNetServer.cpp:104-114 | After a login packet the framed reader starts on the next frame and delivers exactly the frames whose last byte it read |
| TcpServer.LoginAlignment | QNetTcpServer.cpp:161-168 | The fixed-size read ends on a frame boundary if and only if the first frame has 40 + 36 = 76 bytes |
| TcpServer.QNetTcpServer.RunSendCmdOnce | QNetTcpServer.cpp:331-340 | One turn of the send thread takes the front frame and writes it whole, or a proper beginning of it on failure; quit becomes 1 if and only if a select timed out |
| TcpClient.QNetClient.Read | QNetClient.cpp:617-645 | The client's READ, which keeps asking on a result of 0, has taken exactly the bytes it has stored; done if and only if all were read; -1 sets quit |
| TcpClient.QNetClient.ReceiveFrame | QNetClient.cpp:513-533 | One turn of the client's receive thread moves exactly the next frame to its window; after a failed READ it appends a packet all the same, which begins with the bytes received and is as long as its header says; the socket keeps the rest of the stream |
| TcpClient.QNetClient.Write | QNetClient.cpp:596-616 | The client's WRITE, which sets quit on any failure |
| TcpClient.QNetClient.MainCmdProcess | QNetClient.cpp:309-420 | The four builders: types 1, 2 and 3 enqueue and no other does, the payload is copied behind 40 bytes, and for the pairs (1, 1-3), (2, 1-4) and (3, 1-2) those bytes are the header of the pair |
| TcpClient.QNetClient.SendTurn | QNetClient.cpp:447-488 | One turn of the send loop: the front frame is written and the counter reset; an empty window counts up below 2699 and gets a heartbeat at 2699; after a failed write a proper beginning of the frame is on the wire |
| TcpClient.QNetClient.RunSendPthread | QNetClient.cpp:440-499 | The loop, whatever other threads append between its turns and whoever sets quit, leaves the window and the wire where that many turns take them, up to a beginning of the last frame if its write failed |
| TcpClient.BoundedSilence | QNetClient.cpp:447-488 | Among any 2701 consecutive turns there is a write |
| TcpClient.HeartbeatExactly | QNetClient.cpp:465-483 | A heartbeat is enqueued exactly after 2700 consecutive empty polls, the last 2699 before it idle |
| TcpClient.SendConservation | QNetClient.cpp:447-488 | What was written followed by what is in the window is what entered the window, heartbeats included, in order |
| Pipe.StepKeeps | QNetClient.cpp:447-454 | Taking out, sending, receiving, failing and delivering, in any order and in any sizes, keep the pipe invariant and leave the abstract FIFO unchanged |
| Pipe.DeliverKeeps | QNetTcpServer.cpp:248-275 | What the receiver delivers is the frame that was appended next, whole |
| Pipe.AppendKeeps | QNetClient.cpp:364-364 | Appending pushes on the abstract FIFO |
| Pipe.DispatchKeeps | QNetTcpServer.cpp:213-225 | Dispatching pops its front |
| Pipe.EndToEndFifo | QNetTcpServer.cpp:248-285 | In every reachable state, under any interleaving and any partial send and recv sizes: dispatched, receive window, frames under way and send window together are exactly the frames appended, and the bytes under way are theirs |
| Pipe.RefinesFifo | QNetTcpServer.cpp:248-285 | Every run of the pipe is a run of a lossless FIFO of frames |
| Pipe.FailedReceiverDeliversNothing | QNetTcpServer.cpp:253-272 | After a recv failed, in mid-frame or not, the receive window never gains anything again; it only ever held whole frames |
| Pipe.WireOrder | QNetTcpServer.cpp:331-340 | The bytes that reached the wire are a beginning of the concatenation of the frames appended |
| Pipe.StepWork | QNetClient.cpp:596-616 | No step moves a frame away from its dispatch; the thread that is due brings it nearer; any other leaves the same thread due |
| Pipe.DueCanMove | QNetClient.cpp:596-616 | While frames are queued and nothing has failed, the thread that is due has a step |
| Turns.SendTurnSteps | QNetTcpServer.cpp:331-340 | A turn of a send thread, in sends of any sizes, is a sequence of pipe steps: the front frame leaves the window and what was sent of it is on the wire |
| Turns.ReceiveTurnSteps | QNetClient.cpp:513-533 | A turn of a receive thread, in recvs of any sizes that add up to the frame, is a sequence of pipe steps that ends with exactly that frame in the receive window |
| Turns.DeadSenderDrains | QNetTcpServer.cpp:331-347 | After a failed write the thread goes on taking frames out, and nothing of them is sent |
| Turns.ServerSends | QNetTcpServer.cpp:331-340 | What the contract of RunSendCmdOnce allows is a dequeue and sends, and a failure if the write failed: window and wire are then those of the pipe |
| Turns.ServerReceives | QNetTcpServer.cpp:248-275 | What the contract of the server's ReceiveFrame allows is receives and a delivery, or receives that stop in mid-frame and a failure: window and wire are then those of the pipe |
| Turns.ClientReceives | QNetClient.cpp:513-533 | The same for the client, whose window has one packet more after a failure, beginning with what the pipe's receiver holds |
| Threads.ServerAnswers | QNetTcpServer.cpp:213-225 | What the contract of a turn of the command thread allows is one Serve and an Emit for each answer: windows and FILE pointer are then those of the session |
| Threads.ClientTakes | QNetClient.cpp:552-563 | What the contracts of a turn of the dispatcher and of the sample client's callbacks allow is one Dispatch: windows and globals are then those of the session |
| Threads.SampleSets | test_client.c:225-231 | The calls of the sample client set filestart_ack and filesend_ack for these two pairs and no other |
| Threads.ServerLogsIn | QNetTcpServer.cpp:161-202 | What the contract of login allows is Login or Reject and sends of the acknowledgement, with a failure if it was torn: the socket is then that of the session |
| Threads.ClientLogsIn | test_client.c:77-88 | What the sample client sends on connect is a first packet of 76 bytes that the server accepts |
| Threads.ClientAsks | test_client.c:132-144 | The menu's request for a file is an Ask of the session |
| Threads.ClientBegins | test_client.c:116-130 | Its start of a transfer is a Begin: window and globals are then those of the session |
| Threads.ClientSays | QNetClient.cpp:309-420 | Any command of the other pairs, in any state, is a Say |
| Threads.HeartbeatIsSaid | QNetClient.cpp:465-483 | So is a heartbeat |
| Threads.ServerStreams | QAntProtocol.cpp:309-338 | A turn of the stream thread is a Stream |
| Threads.ClientStarts | test_client.c:221-234 | The client's objects as they are made are those of the session's start |
| Threads.ServerStarts | QNetTcpServer.cpp:8-140 | So are the server's |
| Threads.AnyFirstPacket | QNetTcpServer.cpp:161-168 | A session can begin with any packet of 76 bytes that is not of the transfer |
| Producers.StepKeepsInv | QAntProtocol.cpp:62-64 | With appends that copy piece by piece, send_buff_mutex keeps the copy of each producer unmixed |
| Producers.PublishKeeps | QAntProtocol.cpp:335-337 | What is published is exactly the frame the producer built |
| Producers.NoTearing | QAntProtocol.cpp:231-233 | In every reachable state the bytes on the wire parse as a prefix of an order-preserving interleaving of the frames of the command thread and the stream thread |
| CommandLists.AddMainGood | QNetTcpServer.cpp:507-523 | Hooking a main node behind the last keeps both levels linked, acyclic, disjoint and counted |
| CommandLists.AddSubGood | QNetTcpServer.cpp:531-539 | The same for a callback node |
| CommandLists.SetSubGood | QNetClient.cpp:242-249 | The same for replacing a callback in place |
| ServerRegistry.Registry.AppendCmdNode | QNetTcpServer.cpp:499-524 | A blind append of a main type, on heap nodes; every head node counts the nodes behind it |
| ServerRegistry.Registry.AppendSubCmdNode | QNetTcpServer.cpp:526-540 | A blind append of a callback to the first list of its type |
| ServerRegistry.Registry.SearchSubcmdHead | QNetTcpServer.cpp:542-555 | The counted scan stays on the list and finds the first node of the type, or NULL exactly if there is none |
| ServerRegistry.Registry.SearchSubcmdNode | QNetTcpServer.cpp:557-574 | The counted scan finds the first callback appended for the pair, or NULL exactly if there is none |
| ServerRegistry.FirstAppended | QNetTcpServer.cpp:499-574 | After any history of appends, duplicates included, a lookup gives the first callback appended for the pair, and exactly the appended types are registered |
| ClientRegistry.Registry.AppendCmdLinkNode | QNetClient.cpp:186-220 | Adds a main type once, on heap nodes without counts |
| ClientRegistry.Registry.SetProtocolAckCallback | QNetClient.cpp:222-256 | Sets the callback of the pair in place or appends it; the last else is dead |
| ClientRegistry.Registry.SearchSubcmdHead | QNetClient.cpp:285-305 | The scan for the end of the list finds the type's list, or NULL exactly if there is none |
| ClientRegistry.Registry.SearchSubcmdNode | QNetClient.cpp:260-281 | Finds the pair's callback or NULL exactly if there is none; the way past the last else-if, which returns nothing, is unreachable |
| ClientRegistry.UpsertLookup | QNetClient.cpp:222-256 | Setting a callback changes what that pair maps to and no other pair; keys stay unique |
| ClientRegistry.AddTypeLookup | QNetClient.cpp:186-220 | Appending a main type is idempotent and changes no pair |
| ClientRegistry.RefinesMap | QNetClient.cpp:186-305 | After any history of calls on registered types the table is the map from pairs to the callback set last |
| AntProtocol.QAntProtocol.CtrlLogoutAck | QAntProtocol.cpp:23-43 | One logout acknowledgement with state 1 is appended |
| AntProtocol.QAntProtocol.CtrlHeartAck | QAntProtocol.cpp:45-66 | One heartbeat acknowledgement with state 1 is appended |
| AntProtocol.QAntProtocol.FilePathAck | QAntProtocol.cpp:171-202 | The path is stored up to its NUL for the handlers after it, and one acknowledgement says whether the directory opens |
| AntProtocol.QAntProtocol.VidConnectAck | QAntProtocol.cpp:238-261 | The stream id is taken over and one acknowledgement with state 1 is appended |
| AntProtocol.QAntProtocol.FileStartAck | QAntProtocol.cpp:127-169 | The file is opened at its start and its length, in 32 bits, announced; or 0 is announced and the file is left as it was |
| AntProtocol.QAntProtocol.FileSendAck | QAntProtocol.cpp:204-236 | The next bytes of the file, as many as bytes 4 and 5 of the request ask for or are left, with bytes 0 to 3 repeated as serial number; a short read closes the file; without a file, an answer without data |
| AntProtocol.QAntProtocol.RunSendStreamOnce | QAntProtocol.cpp:309-338 | One turn of the stream thread appends one packet with the frame type, the other five fields zero, and the stream data |
| AntProtocol.QAntProtocol.FileListAck | QAntProtocol.cpp:72-125 | The loop over the directory appends the packets of ListReply: nothing if the directory does not open, else batch after batch as Batches splits the names |
| FileList.BatchesLoseNothing | QAntProtocol.cpp:86-119 | The batches concatenate to the listed names in order; all but the last hold 20, the last fewer, possibly none; there are n/20 + 1 |
| FileList.BatchesAre | QAntProtocol.cpp:95-118 | Full batches and a rest that is not full can only have come from what they concatenate to |
| AntProtocol.ReportedIs | net_protocol.h:121-127 | A client that reads file_number strings out of the 256-byte slots gets the names that were copied there |
| Dispatch.SwitchAgreesWithTable | QNetTcpServer.cpp:374-497 | For every 16-bit type and 32-bit subtype the nested switches let the pair through if and only if the table the constructor builds maps it, and then to its own handler; the pairs are (1, 2-3), (2, 1-5) and (3, 1-2), the types registered 1 to 4 |
| Dispatch.BuildTable | QNetTcpServer.cpp:32-138 | The constructor's registrations build that table on the heap |
| Dispatch.CommandThread.Call | QNetTcpServer.cpp:408-422 | Each search inside the switches is non-NULL and calls the pair's handler |
| Dispatch.CommandThread.DoCmdProcess | QNetTcpServer.cpp:374-397 | A command is answered as its handler answers it, or not at all if it has none |
| Dispatch.CommandThread.DoFileProcess | QNetTcpServer.cpp:431-474 | The file commands likewise |
| Dispatch.CommandThread.RunCmdProcessOnce | QNetTcpServer.cpp:213-225 | A turn of the command thread takes the front frame of the receive window and appends exactly its answers to the send window; only FILE_PATH changes the path, and only VID_CONNECT the stream id, that later turns work with |
| Dispatch.AckDiscipline | QAntProtocol.cpp:23-274 | Every answer has the type and subtype of its command and a Length equal to its size; one for most commands, none for file name and stream start, n/20 + 1 or none for a list |
| ClientDispatch.DispatchTotal | QNetClient.cpp:41-50 | Whatever callbacks are set after construction, every pair a server can send is found |
| ClientDispatch.ConstructorRegisters | QNetClient.cpp:15-50 | The constructor registers exactly the pairs a server can send: (1, 1-3), (2, 1-4) and (3, 1-2) |
| ClientDispatch.SentIsEmittable | QAntProtocol.cpp:23-337 | Every answer, login acknowledgement and stream packet carries one of those pairs |
| ClientDispatch.BuildTable | QNetClient.cpp:8-50 | The constructor's calls build the client's table on the heap |
| ClientDispatch.Dispatcher.SetProtocolAckCallback | QNetClient.cpp:431-434 | An application's calls extend the history that the table refines |
| ClientDispatch.Dispatcher.RunTreasmitOnce | QNetClient.cpp:552-563 | A turn of the dispatching thread on a packet from the server finds a node, unchecked as it is, and calls the callback set last |
| FileClient.TestClient.BeginTransfer | test_client.c:116-130 | Starting a transfer resets the globals and requests chunk 0: 48 bytes with serial 0 and len 1024 at bytes 40 to 45 |
| FileClient.TestClient.AskForFile | test_client.c:132-144 | The request to open a file: 1068 bytes with the non-empty name and its NUL from byte 40 on |
| FileClient.TestClient.LogIn | test_client.c:82-87 | The login of the sample client: 40 + 16 + 16 + 4 bytes of the pair (1, 1), name and password each with its NUL in its field, anything behind |
| FileClient.TestClient.FilestartAck | test_client.c:172-177 | The announced length is taken over, and nothing else changes |
| FileClient.TestClient.FilesendAck | test_client.c:42-73 | A chunk changes the globals as AfterChunk says, in 32-bit arithmetic, and one of 1024 bytes is followed by the request for the next, serial number and len in their bytes; a shorter one closes the file |
| Meter.MeterHonest | test_client.c:47-53 | viewinfo > 1 implies that more than its (viewinfo - 1) tenths were counted, after every chunk, if and only if the threshold for 110 percent is not computed with overflow by the last chunk; the condition in numerals |
| Meter.MeterUpToDate | test_client.c:47-53 | The count never passes viewinfo tenths after a chunk if and only if a tenth is at least 1024 bytes or the file is short enough; the condition in numerals |
| Meter.KeepsUp | test_client.c:47-53 | With tenths of at least a chunk the meter is never behind, overflow or not |
| Meter.MeterTerms | test_client.c:47-53 | viewinfo after each chunk, and what the two properties say of it, in numerals |
| Meter.MeterExceptions | test_client.c:47-53 | A file of 5000 bytes outruns the meter; one of 4096001024 bytes makes it overstate |
| Exchange.ServeKeeps | QAntProtocol.cpp:127-236 | The server's answers to the file request and to a chunk request keep the stop-and-wait invariant |
| Exchange.TakeKeeps | test_client.c:42-73 | What the client does with an acknowledgement keeps it: the length, a full chunk, the last chunk |
| Exchange.InvSafe | test_client.c:42-73 | The invariant implies Safe, and Complete once the transfer has ended; the server has closed exactly if the chunk under way is short |
| Session.StepKeeps | QNetTcpServer.cpp:204-237 | Every step of every thread of the session keeps the session invariant |
| Session.LoginKeeps | QNetTcpServer.cpp:161-202 | The unframed login read and the direct write of its acknowledgement keep both pipes in order |
| Session.RejectKeeps | QNetTcpServer.cpp:181-202 | A login that is refused is taken and answered with one acknowledgement as well, and that keeps them too |
| Session.DownloadSafe | test_client.c:42-73 | In every state of every run, with any other traffic interleaved, until what a failed READ left changes something at the client: the client's bytes are a prefix of the file, serial * 1024 is the count while the transfer runs, no more than size / 1024 + 1 chunks are requested, the server only reads an open file and from the client's count on, and the client only writes to an open one |
| Session.StopAndWait | QAntProtocol.cpp:204-236 | In every such state at most one chunk is under way, as a request or as an acknowledgement, and the server's position is the client's count plus the bytes in the outstanding acknowledgement |
| Session.DownloadComplete | test_client.c:55-58 | Once the client has closed its file it equals the server's, the server has closed too, and exactly size / 1024 + 1 chunks were requested, sizes divisible by 1024 included |
| Session.AcksInOrder | QNetTcpServer.cpp:213-225 | Over any run the frames of the command thread are the answers of the handlers to the commands, in request order: each command met its handler's relation for the file system and FILE pointer it found, pointers carry over, and counts are those for that file system; behind the login acknowledgement these and the stream thread's packets interleave to the server's send history |
| Session.DispatchTotalOnRuns | QNetClient.cpp:556-562 | In every state of every run, the frame at the front of the client's receive window has a node in the client's table after any further callback changes |
| Session.LoginFirst | QNetTcpServer.cpp:161-202 | Until login has succeeded the server has sent nothing, or after a refusal one acknowledgement that says so and nothing behind it; after login its acknowledgement is the first frame on the wire; the login frame is taken whole and first |
| Session.MeterOnRuns | test_client.c:47-53 | The meter's bounds in every state of a transfer, until what a failed READ left changes something at the client; Strays.ClientSurvives says when it can |
| WireFormat.FrameBytes | net_protocol.h:49-52 | A frame: 40 bytes at least, the big-endian number in bytes 4 to 7 is its size |
| WireFormat.PacketBytes | net_protocol.h:64-83 | A packet that HEAD_PKG made, byte by byte, in both directions: magic, size, type, 0, subtype, zeros |
| WireFormat.HandlersByNumber | net_protocol.h:19-45 | Which handler answers which pair, by number |
| WireFormat.SizedBytes | QAntProtocol.cpp:127-248 | A command carries what its handler reads if and only if it has 41 bytes for (2, 2) and (3, 1), 48 for (2, 4), 40 for any other pair |
| WireFormat.StoredByNumber | QAntProtocol.cpp:171-261 | Only (2, 3) stores a path and only (3, 1) a stream id |
| WireFormat.CStringEnds | QAntProtocol.cpp:179-180 | A string ends in front of its NUL |
| WireFormat.ListPacketBytes | net_protocol.h:121-127 | A list packet: 5166 bytes, the number of names at byte 40, and name k with its NUL from byte 41 + 256 k on, in both directions |
| WireFormat.NamesInOrder | QAntProtocol.cpp:86-119 | The names of a directory are those of its entries, in order |
| WireFormat.NamesOfOne | QAntProtocol.cpp:97-101 | An entry is listed if and only if it is not a directory and its name does not begin with a dot |
| WireFormat.ListAnswerBytes | QAntProtocol.cpp:72-125 | The answer to a list command, packet by packet and byte by byte: n/20 + 1 packets, the k-th with names 20 k to 20 k + 19, in both directions |
| WireFormat.ChunkAnswerBytes | QAntProtocol.cpp:204-236 | The answer to a chunk request in bytes: as many as 256 * data[4] + data[5] says or are left, behind the four bytes of the serial number and four more, in both directions |
| WireFormat.AnswersInBytes | QNetTcpServer.cpp:213-225 | For every command of every pair: it is answered as the command thread answers it if and only if packets and FILE pointer are those of a table in numerals |
| WireFormat.StreamBytes | QAntProtocol.cpp:309-338 | A stream packet in bytes, in both directions |
| WireFormat.LoginBytes | QNetTcpServer.cpp:178-186 | 76 bytes are accepted as login if and only if the pair is (1, 1) and bytes 40 to 45 and 56 to 62 are admin and 123456 with their NULs |
| WireFormat.LoginAckBytes | QNetTcpServer.cpp:181-198 | The login acknowledgement in bytes: 44 of them, state 0 for an accepted login and 2 for a refused one |
| WireFormat.StartRequestBytes | test_client.c:132-144 | The request for a file in bytes, in both directions |
| WireFormat.ChunkRequestBytes | test_client.c:121-127 | The request for a chunk in bytes, in both directions |
| WireFormat.BuildersByNumber | QNetClient.cpp:309-420 | The pairs with a case and the types that enqueue, by number |
| WireFormat.HeartbeatBytes | QNetClient.cpp:468-480 | A heartbeat: 48 bytes of the pair (1, 3) |
| WireFormat.TakenBytes | test_client.c:42-73 | What a packet of 48 bytes or more does to the client's globals, in numerals |
| WireFormat.RepliesBytes | test_client.c:59-67 | A request follows a chunk of 1024 bytes or more and nothing else |
| Strays.DownloadSurvives | QNetClient.cpp:517-522 | Wherever READ fails: whatever memory the packet is filled up with, its write is well-defined and leaves a prefix of the file, if and only if the bytes that had arrived exclude FILE_SEND, or announce a chunk without data for an open file |
| Strays.ClientSurvives | QNetClient.cpp:517-562 | Wherever READ fails: all of the client's globals, meter and announced length included, stay as they are if and only if the bytes that had arrived exclude FILE_SEND, and exclude FILE_START or give the length already known |
| Strays.LeftAlone | QNetClient.cpp:552-563 | A packet that leaves the globals as they are does not end what the session's theorems say |
| Strays.NodeForEveryPair | QNetClient.cpp:552-562 | Wherever READ fails, and for any history of the table: the dispatcher finds a node for whatever is left if and only if every pair that agrees with the bytes that had arrived has one |
| Strays.DispatchSurvives | QNetClient.cpp:552-562 | With callbacks set for the constructor's pairs only, that is the case if and only if all 16 bytes up to the end of CmdSubType had arrived |
| Strays.StrayBreaksDownload | QNetClient.cpp:513-562 | Every run that ends where READ can fail with bytes that can spoil the download, and with nothing else to dispatch, goes on to a state in which what has been written is not a prefix of the file, or in which the next callback is not defined |
| Strays.StrayBreaksDispatch | QNetClient.cpp:513-562 | Every run that ends where READ can fail while a pair without a node agrees with what has arrived goes on to a state in which the dispatcher is at a frame without a node |
| Strays.TransferBegins | test_client.c:116-144 | There are such runs, with a transfer begun and its file open |
| Answerability.Answerable | QAntProtocol.cpp:23-274 | Every command that fits can be answered in any file system, directories of any size included, the file being open where it is read |
| Completion.StepProgress | QNetTcpServer.cpp:207-237 | Every step of a failure-free session with the right credentials ends the transfer, brings its end nearer, or leaves the thread that can do so in place |
| Completion.HelpfulMoves | QNetTcpServer.cpp:324-359 | That thread always has a step, whatever else the server's file system holds |
| Completion.DownloadTerminates | test_client.c:55-71 | Under weak fairness of the threads, without failures and logout, and with the credentials the server accepts, a transfer that was begun, even before login is over, ends with the client's file equal to the server's after size / 1024 + 1 requests, however much other traffic there is |
| Scheduling.FairBehaviour | QNetTcpServer.cpp:204-360 | For every file and every accepted login there is a behaviour without failures that treats all threads fairly and in which a transfer runs |
| Scheduling.AnyOtherStep | QNetTcpServer.cpp:204-360 | Such behaviours can take any step but failing ones and the pair (1, 2) |
| Scheduling.SomeDownloadEnds | test_client.c:55-71 | So for every file there is a behaviour in which the client ends with all of it and the server has closed |

## Left out

- TcpClient.QNetClient.Read: observes a bounded number of recv calls, because on an orderly shutdown the source's loop never ends; the bound is a parameter and running out of it is a separate result.
- TcpClient.QNetClient.ReceiveFrame: says nothing of the window after a failed READ of a header whose Length is then below the header's own size or beyond the int range; the source writes past what it allocates, or asks for more than there is. Length has then not arrived, and by Strays both properties are lost in that case anyway.
- TcpClient.QNetClient.MainCmdProcess: says nothing of the header of a pair without a case, which the source sends uninitialised.
- TcpServer.QNetTcpServer.RunSendCmdOnce: one turn; the loop goes on after a failed WRITE until quit is set, which Pipe covers by taking the failure as permanent.
- AntProtocol.QAntProtocol.FileSendAck: requires that the file was not closed, since the pointer is not reset and reading it then is undefined; Session.DownloadSafe shows that a transfer never does that.
- AntProtocol.QAntProtocol.FilePathAck: takes whether the directory opens as a parameter; that the later commands find the file or the entries of that path is not modelled, nor is `chdir`.
- Dispatch.BuildTable: performs the constructor's registrations from a constant list, in the order of the source's statements; ClientDispatch.BuildTable likewise.
- Dispatch.CommandThread.RunCmdProcessOnce: requires that a command carries the fields its handler reads; the source reads past a shorter one into its own buffer.
- FileClient.TestClient.FilesendAck: requires that the signed serial number does not overflow and that the local file is open.
- Session.DownloadSafe: a second `file_start` or an overlapping transfer on one connection is excluded, because the server keeps a closed FILE pointer.
- Completion.DownloadTerminates: fairness of the threads and the absence of failures and logout are hypotheses; the timeouts of select count as failures.
- The client's producers append to its send window without a lock; each append is taken as atomic there. Producers covers the server, which has the lock.
- Recovery of the sliding window from negative reads (QNetTcpServer.cpp:342-345), and everything inside QSlidingWindow, QSlidingWindowConsume and QGetDVOStream, which are not part of this model.
- Socket setup, accept, select details, signals, thread creation and cancellation, and the `sock_id` shared between accepted connections.
- What callbacks print, the menu, the wall-clock content of heartbeats, and the audio builder, which never enqueues.
- Memory management: buffers are never freed here, and the packet that the sample client leaks after login is not noticed.
