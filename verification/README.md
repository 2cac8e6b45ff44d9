# A verified model of MicroPython's `extmod` algorithms

MicroPython's `extmod` directory holds the C side of many modules. Most of it is binding code; some
of it is algorithms and state machines whose correctness is not visible from their text. This
project models those in Dafny and proves what they are for. `dafny verify dfyconfig.toml` checks
everything.

Code that changes buffers and fields step by step is modelled by methods and classes that change
arrays and fields, loop by loop, and each is proved against a specification that does not mention
the loop; the specifications then have their own theorems.

| files | component | main results |
|---|---|---|
| `FbPixels`, `FbFill`, `FbScroll`, `FbLine`, `FbEllipse`, `FbPoly` | `extmod/modframebuf.c` | a frame buffer in any of seven packed formats is a two-dimensional array of colours; every drawing operation paints exactly a mathematically defined set of points |
| `I2sRing`, `I2sCopy` | `extmod/machine_i2s.c` | the lock-free queue is safe under every interleaving of single loads and stores; the non-blocking copies are all or nothing |
| `LwipAccept`, `LwipTcp` | `extmod/modlwip.c` | the accept ring is a FIFO with removal; no received byte is lost, repeated or reordered, whatever callbacks run between the accesses of a receive |
| `Uctypes` | `extmod/moductypes.c` | `sizeof` covers every byte that any access path reaches |
| `Json`, `JsonParse`, `JsonGrammar` | `extmod/modjson.c` | for every byte stream, the one-pass stack machine accepts and builds exactly what a recursive reader does; that includes every text of RFC 4627 as the tree it denotes |
| `Websocket` | `extmod/modwebsocket.c` | interruptible reading gives the concatenated payloads; what is written reads back |
| `SoftI2c` | `extmod/machine_i2c.c` | a bus observer sees START, the bytes MSB first, and STOP, and nothing else |
| `AesCtr` | `extmod/modcryptolib.c` | counter mode under any chunking, and its inverse |
| `Heapq` | `extmod/modheapq.c` | heap order, no item lost, sorting |
| `Base64` | `extmod/modbinascii.c` | the codec as base-64 and base-256 numerals, and the round trip |
| `Common`, `Octets` | shared | division facts, exclusive or, byte strings as numbers |

## Where the code does not do what one would expect

Some natural claims are false of the code. Each is kept as the code has it, with an input that shows
it and the exact condition under which the claim holds:

- A stride of 65529 or more (depending on the format) is rounded up to 65536 and wraps to 0 in its
  16-bit field (`StrideWraps`). `AcceptedFits` shows that pixels still stay inside the buffer;
  `AcceptedIndependent` shows that the frame is a two-dimensional array exactly when the rounded
  stride fits or the height is 1.
- The polygon filler divides with truncation towards zero, so the rounding it adds goes the wrong
  way left of the origin: a vertical edge at x = -5 is filled from x = -4 (`NegativeEdgeMoves`), and
  a triangle paints outside its bounding box (`TriangleLeavesItsBox`). `NodeBetween` gives the exact
  condition for a crossing, `PaintsOnlyItsBox` for a whole polygon.
- A control frame whose payload arrives in more than one piece has all but its last piece handed
  to the caller as data (`PingLeaks`). `LeakAhead` says, from the frames, the stream's plan and the
  size of the read, when that happens, and `WebSocket.Read` proves it exact; over a stream that
  withholds nothing it depends on the size alone (`GenerousLeak`).
- A comment in `extmod/modwebsocket.c` (lines 99-101) says that control frames leave `ws_flags`
  alone; the code sets it for every frame other than a continuation. `MessageOpcode` shows that the
  opcode on record is the message's exactly when no control frame came in between.
- A backlog above 255 is truncated in the 8-bit `alloc`. The accept queue is the FIFO it should be,
  of the truncated capacity, exactly when the backlog is at most 1 or not a multiple of 256; for a
  multiple of 256 the first accept returns the address of the array (`PhantomConnection`).
- A TCP receive tests the socket without the lock. `Answer` gives its result as a function of the
  socket and of the callbacks at each place, and the exact conditions follow. The buffer it is about
  to read is missing if and only if the same receive would have handed out bytes and an error comes
  after its last test (`MissingExactly`, `ErrorBeforeTheLock`, `ErrorAfterTheWait`). A waiting
  receive reports that there is no connection, with data left unread, if and only if data ended the
  wait and the peer's clean close came between the two tests of the state (`NotConnectedExactly`,
  `NotConnectedBeforeData`). A receive that does not wait reports the end of the stream with data
  left behind if and only if the data comes between its two tests and the close is known by the
  second (`NotWaiting`, `EndBeforeData`).
- The JSON loader's own comment names commas and colons as blanks and unpaired brackets as what it
  takes beyond the standard. It also takes an outermost container that is never closed and a key
  without a value (`TakesMore`); `JsonParse.MachineIsReader` states exactly what is taken.

## Model

| member | source | states |
|---|---|---|
| `FbPixels.SlotsAreIndependent` | extmod/modframebuf.c:70-224 | writing one pixel of a byte reads back that pixel and leaves each other pixel of the byte alone, in every format smaller than 16 bits |
| `FbPixels.PixelsApart` | extmod/modframebuf.c:70-228 | two different pixels of a frame never share both byte and bit position |
| `FbPixels.PutGet` | extmod/modframebuf.c:70-228 | the array law: a written pixel reads back truncated to the format, every other pixel of the frame is unchanged |
| `FbPixels.PutGetApart` | extmod/modframebuf.c:70-228 | the array law for any two pixels that do not share a bit position, whatever the stride |
| `FbPixels.PutBackIsTruncated` | extmod/modframebuf.c:76-224 | a colour that was read survives being written again |
| `FbPixels.PixelBitsAre` | extmod/modframebuf.c:70-224 | each format of up to eight bits keeps its pixels at the bits of the bytes that its name says, and reads and writes them by shifting and masking |
| `FbPixels.WordPixelIs` | extmod/modframebuf.c:122-128 | a 16-bit pixel is its low byte, then its high byte |
| `FbPixels.AcceptedFits` | extmod/modframebuf.c:281-325 | whatever the constructor accepts, every in-frame pixel access is inside the buffer, for all formats and strides, wrapped ones included |
| `FbPixels.AcceptedExactly` | extmod/modframebuf.c:281-325 | accepted are exactly the sizes and strides in range for which the byte of the last pixel, at the rounded stride, is inside the buffer; the geometry is then the one asked for, by the format's number |
| `FbPixels.UnknownFormat` | extmod/modframebuf.c:289-318 | no number beyond the seven is a format |
| `FbPixels.AcceptedSound` | extmod/modframebuf.c:281-325 | the stored stride is at least the width and whole bytes, if and only if the rounded stride fits 16 bits |
| `FbPixels.AcceptedIndependent` | extmod/modframebuf.c:281-325 | an accepted frame obeys the array law, for every content, pixel and colour, if and only if the rounded stride fits 16 bits or there is one row |
| `FbPixels.StrideWraps` | extmod/modframebuf.c:281-325 | a frame of two rows that the constructor accepts with stride 0, for which the array law fails |
| `FbPixels.AcceptedValid` | extmod/modframebuf.c:281-335 | an accepted frame has positive sides and fits its buffer, and meets what every drawing operation asks if and only if the rounded stride fits 16 bits |
| `FbPixels.Make` | extmod/modframebuf.c:273-336 | the constructor refuses, or makes an object that is ready for drawing if and only if the rounded stride fits 16 bits |
| `FbPixels.FrameBuffer.SetPixel` | extmod/modframebuf.c:70-220 | the buffer becomes exactly `Put` of the old one, in place |
| `FbPixels.FrameBuffer.GetPixel` | extmod/modframebuf.c:76-224 | returns `Get` of the buffer |
| `FbFill.RowsGet` | extmod/modframebuf.c:244-256 | setting the pixels of a rectangle one by one colours the rectangle and nothing else |
| `FbFill.ColumnsGet` | extmod/modframebuf.c:244-256 | the same for column order |
| `FbFill.FillMonoHoriz` | extmod/modframebuf.c:82-94 | the fast fill of both horizontal monochrome formats leaves the bytes that per-pixel writes would leave |
| `FbFill.FillMvlsb` | extmod/modframebuf.c:108-118 | the same for the vertical monochrome format |
| `FbFill.FillRgb565` | extmod/modframebuf.c:130-138 | the same for 16-bit colour, with the pointer skipping to each next row |
| `FbFill.FillGs2` | extmod/modframebuf.c:156-162 | the same for two-bit grey |
| `FbFill.FillGs8` | extmod/modframebuf.c:226-232 | the same for eight-bit grey, one memset per row |
| `FbFill.MemsetIsRow` | extmod/modframebuf.c:226-232 | a memset over a row is writing its pixels one by one |
| `FbFill.Gs4Pair` | extmod/modframebuf.c:184-213 | storing a doubled nibble is writing the two pixels that share the byte |
| `FbFill.Gs4Memset` | extmod/modframebuf.c:184-213 | a memset of doubled nibbles is writing that many pairs of pixels |
| `FbFill.FillGs4Row` | extmod/modframebuf.c:193-212 | one row by leading nibble, memset and trailing nibble equals per-pixel writes, and the pointer advances by stride / 2 for every parity of x and w |
| `FbFill.FillGs4` | extmod/modframebuf.c:184-213 | the whole four-bit fill equals per-pixel writes |
| `FbFill.FormatFill` | extmod/modframebuf.c:234-270 | whatever the format, exactly the rectangle is painted |
| `FbFill.FillRect` | extmod/modframebuf.c:258-271 | for arguments of any sign and size, exactly the part of the rectangle inside the frame is painted and no other pixel changes |
| `FbFill.SetPixelChecked` | extmod/modframebuf.c:248-252 | paints the one pixel if it is asked for and in the frame |
| `FbFill.PaintedTwice` | extmod/modframebuf.c:258-271 | painting two regions in turn paints their union |
| `FbScroll.CopyOne` | extmod/modframebuf.c:800-804 | the pixel about to be read has not been overwritten: one copy extends the scrolled part by one pixel, for every sign of both steps |
| `FbScroll.RowDone` | extmod/modframebuf.c:770-804 | the pixels of a row that the loop skips are those without a source |
| `FbScroll.Scroll` | extmod/modframebuf.c:765-806 | the in-place scroll is the simultaneous move: new(x, y) = old(x - xstep, y - ystep) where that is in the frame, else old(x, y) |
| `FbLine.MinorAccurate` | extmod/modframebuf.c:461-478 | the plotted offset k satisfies -dx <= 2(dy i - dx k) < dx |
| `FbLine.MinorUnique` | extmod/modframebuf.c:461-478 | no other offset satisfies it |
| `FbLine.Endpoints` | extmod/modframebuf.c:461-482 | the walk starts and ends exactly at the two endpoints |
| `FbLine.Connected` | extmod/modframebuf.c:472-477 | successive pixels touch and the walk never turns back |
| `FbLine.InBox` | extmod/modframebuf.c:425-483 | the walk stays in the box of its endpoints |
| `FbLine.PointOnLine` | extmod/modframebuf.c:461-482 | every point plotted is within half a pixel of the straight line between the endpoints |
| `FbLine.Advance` | extmod/modframebuf.c:472-477 | the inner loop takes at most one turn and re-establishes the error term of the nearest pixel |
| `FbLine.DrawLine` | extmod/modframebuf.c:425-483 | for all endpoints, exactly the walk inside the frame is painted |
| `FbEllipse.NearestIsBest` | extmod/modframebuf.c:558-563 | a point with the balance test on its two sides has the smallest absolute error of its row |
| `FbEllipse.ExactTurn` | extmod/modframebuf.c:552-564 | one turn keeps error = b²x² + a²y² - a²b² and the closed forms of xchange, ychange and both stopping terms; the test computes the balance of the two candidates |
| `FbEllipse.StandingStep` | extmod/modframebuf.c:558-563 | the branch taken leaves the nearest point of the next row |
| `FbEllipse.RowsComplete` | extmod/modframebuf.c:552-564 | when the loop stops, every row of the arc has been met |
| `FbEllipse.LoopTurn` | extmod/modframebuf.c:552-585 | each turn keeps the invariant, lowers the measure and adds exactly one point of the arc, for all radii but both zero |
| `FbEllipse.DrawPoints` | extmod/modframebuf.c:507-527 | paints the four mirrored points, or the four spans, that the mask selects |
| `FbEllipse.DrawArc` | extmod/modframebuf.c:543-585 | a loop terminates and paints exactly the mirrored points of its arc; `swap` is the second loop |
| `FbEllipse.DrawEllipse` | extmod/modframebuf.c:529-587 | for all integer radii, exactly the two arcs (or the one centre pixel) inside the frame are painted |
| `FbEllipse.StrokeIs` | extmod/modframebuf.c:498-527 | a point of the arc paints the pixels at its distances from the axes, or the whole span up to them when filling, in exactly the quadrants selected |
| `FbEllipse.EllipseIs` | extmod/modframebuf.c:529-587 | a pixel belongs to the ellipse exactly when its distances from the axes are those of an arc point, or no further out when filling, and its quadrant is selected |
| `FbEllipse.ArcStart` | extmod/modframebuf.c:545-552 | the arc begins at the end of its axis |
| `FbEllipse.ArcConnected` | extmod/modframebuf.c:552-564 | the arc has no gap |
| `FbEllipse.ArcIsAFunction` | extmod/modframebuf.c:552-564 | the arc has one point in a row |
| `FbEllipse.OuterWins` | extmod/modframebuf.c:558 | of two candidates equally far off, the outer one is taken |
| `FbEllipse.SmallCircle` | extmod/modframebuf.c:552-564 | the arc of the circle of radius 3 |
| `FbPoly.NodesEven` | extmod/modframebuf.c:634-664 | the crossings of a scan line are even in number and at most n_poly |
| `FbPoly.CrossingBetween` | extmod/modframebuf.c:645-647 | a crossing in 32nds lies between the ends of its edge |
| `FbPoly.CrossingOnLine` | extmod/modframebuf.c:646 | a crossing is within a 32nd of a pixel of the straight line through the ends of its edge |
| `FbPoly.NodeBetween` | extmod/modframebuf.c:645-647 | the rounded crossing never lies left of its edge; it is not right of it if and only if the right end is not negative or the crossing is at least half a pixel left of it; it is the nearest pixel from half a pixel left of the origin on, and half to one and a half pixels too far right before that |
| `FbPoly.NegativeEdgeMoves` | extmod/modframebuf.c:646 | the input on which the rounding leaves the edge |
| `FbPoly.InversionsSwapped` | extmod/modframebuf.c:673-679 | a swap of the sort removes exactly one inversion |
| `FbPoly.SortNodes` | extmod/modframebuf.c:671-683 | the back-stepping sort terminates with a sorted permutation, and touches only the first n entries |
| `FbPoly.SpansAreEvenOdd` | extmod/modframebuf.c:685-688 | on sorted nodes, filling between pairs is the even-odd rule |
| `FbPoly.CollectNodes` | extmod/modframebuf.c:632-664 | collects exactly the crossings of the row, an even number within the array, and paints the lower ends of edges |
| `FbPoly.FillSpans` | extmod/modframebuf.c:685-688 | paints exactly the spans between pairs of nodes |
| `FbPoly.FillRow` | extmod/modframebuf.c:630-689 | one scan line adds exactly its row of the polygon |
| `FbPoly.RowIsInside` | extmod/modframebuf.c:630-689 | lower ends and spans together are the pixels of that row inside the polygon |
| `FbPoly.FillPoly` | extmod/modframebuf.c:607-689 | for every polygon, exactly the pixels inside it (even-odd, with the lower ends of edges) are painted |
| `FbPoly.PaintsTheInterior` | extmod/modframebuf.c:623-688 | for every polygon right of the origin, a pixel more than half a pixel from the edges that cross its row is painted exactly when an odd number of those edges pass to its left, or a lower end paints it |
| `FbPoly.EdgesOfPolygon` | extmod/modframebuf.c:634-664 | the edges walked join each vertex to the one before it, the first to the last |
| `FbPoly.VerticesArePainted` | extmod/modframebuf.c:645-660 | every vertex is painted, but for one left of the origin with its edges below it |
| `FbPoly.TriangleRow` | extmod/modframebuf.c:645-688 | a slanted edge: row 5 of the triangle (0,0), (10,0), (0,10) is x = 0..5 |
| `FbPoly.DrawPoly` | extmod/modframebuf.c:690-701 | the outline is the union of the lines along all edges, the closing one included |
| `FbPoly.NodesInBox` | extmod/modframebuf.c:645-647 | the nodes of a row stay between the outermost vertices when the right one is not negative or every crossing is half a pixel short of it |
| `FbPoly.InsideIsInBox` | extmod/modframebuf.c:623-688 | under that condition the row paints nothing outside the bounding box |
| `FbPoly.NodeIsInside` | extmod/modframebuf.c:645-688 | every rounded crossing is painted |
| `FbPoly.PaintsOnlyItsBox` | extmod/modframebuf.c:623-688 | a polygon paints nothing outside a box that holds its vertices if and only if the box's right side is not negative or every crossing is at least half a pixel short of it |
| `FbPoly.TriangleLeavesItsBox` | extmod/modframebuf.c:645-688 | a triangle left of the origin that paints a pixel right of all its vertices |
| `I2sRing.StoreMissesUnread` | extmod/machine_i2s.c:145-154 | the producer's byte store lands outside every unread slot |
| `I2sRing.HeadLoadTellsRoom` | extmod/machine_i2s.c:145-156 | at the load of head, the wrapped comparison is exactly the test for room |
| `I2sRing.StepKeepsInv` | extmod/machine_i2s.c:145-183 | every single load, store or decision of either side, in any order, keeps the invariant |
| `I2sRing.EveryInterleavingIsSafe` | extmod/machine_i2s.c:132-183 | over every interleaving from initialisation: bytes popped are a prefix of bytes pushed, at most size - 1 are unread, each unread slot holds its byte, and no push or pop granted by a space or data test fails |
| `I2sRing.PushRefusedExactlyWhenFull` | extmod/machine_i2s.c:145-156 | a push is refused if and only if size - 1 bytes are unread when it loads head |
| `I2sRing.PopRefusedExactlyWhenEmpty` | extmod/machine_i2s.c:158-167 | a pop is refused if and only if nothing was unread when it loaded tail |
| `I2sRing.SpaceTestIsExact` | extmod/machine_i2s.c:177-183 | the space test grants n bytes if and only if they fit beside what it saw unread |
| `I2sRing.DataTestIsExact` | extmod/machine_i2s.c:177-179 | the data test grants n bytes if and only if it saw that many unread |
| `I2sRing.GrantedPush` | extmod/machine_i2s.c:145-156 | while a space test's grant lasts no push is refused, and each uses up one byte of it |
| `I2sRing.GrantedPop` | extmod/machine_i2s.c:158-167 | while a data test's grant lasts no pop is refused, and each uses up one byte of it |
| `I2sRing.Independent` | extmod/machine_i2s.c:132-183 | no step of one side changes what the other side owns |
| `I2sRing.WholePush` | extmod/machine_i2s.c:145-156 | the steps of a push append the byte if there is room, else change nothing |
| `I2sRing.WholePop` | extmod/machine_i2s.c:158-167 | the steps of a pop return the oldest unread byte if there is one, else change nothing |
| `I2sRing.WholeSpaceTest` | extmod/machine_i2s.c:181-183 | the steps of the space test tell exactly the room there is |
| `I2sRing.WholeDataTest` | extmod/machine_i2s.c:177-179 | the steps of the data test tell exactly the bytes there are |
| `I2sCopy.RingBuf.Push` | extmod/machine_i2s.c:145-156 | appends the byte to the contents, or refuses and changes nothing when full |
| `I2sCopy.RingBuf.Pop` | extmod/machine_i2s.c:158-167 | removes and returns the first byte, or refuses exactly when empty |
| `I2sCopy.Port.CopyAppbufToRingbuf` | extmod/machine_i2s.c:322-340 | all or nothing: the ring gains exactly the chunk in order, no unchecked push fails, and the flag is cleared exactly at the end of the buffer |
| `I2sCopy.Port.TakeFrame` | extmod/machine_i2s.c:268-281 | pops one frame and stores exactly its sample, leaving the rest of the buffer alone |
| `I2sCopy.Port.FillAppbufFromRingbuf` | extmod/machine_i2s.c:250-289 | all or nothing: the ring loses exactly whole frames, the buffer gains exactly their samples at the index, and no unchecked pop fails |
| `I2sCopy.SamplesAppend` | extmod/machine_i2s.c:265-281 | unpacking frame by frame is unpacking the concatenation |
| `I2sCopy.SampleIs` | extmod/machine_i2s.c:268-281 | each byte of a frame that the map keeps goes to the place of the sample that the map gives |
| `LwipAccept.AcceptQueue.constructor` | extmod/modlwip.c:998-1007 | for every backlog, the queue is an empty FIFO of the truncated capacity if and only if the 8-bit field does not turn the backlog into 0; otherwise the slot holds the array's address |
| `LwipAccept.CapacityIs` | extmod/modlwip.c:998-1007 | a backlog of up to 255 gives that many places, at least one; a larger one is cut to its low eight bits |
| `LwipAccept.AcceptQueue.OnArrive` | extmod/modlwip.c:517-551 | refused if and only if the queue is full, else appended; non-empty slots stay exactly those from iget to iput |
| `LwipAccept.AcceptQueue.TryAccept` | extmod/modlwip.c:1045-1073 | takes the oldest waiting connection, or none exactly when nothing waits |
| `LwipAccept.AcceptQueue.ShiftOut` | extmod/modlwip.c:480-498 | finds the connection, wrapped or full rings included, and moves every later slot down by one; changes nothing if it is not there |
| `LwipAccept.AcceptQueue.OnDrop` | extmod/modlwip.c:472-505 | removes exactly that connection and keeps the order of the rest |
| `LwipAccept.Execute` | extmod/modlwip.c:336-551 | from any state of the queue, any run of arrivals, accepts and drops on the ring is the run of a FIFO of distinct connections |
| `LwipAccept.PhantomConnection` | extmod/modlwip.c:998-1073 | after listening with any positive multiple of 256, the first accept returns a connection that never arrived |
| `LwipAccept.NothingLost` | extmod/modlwip.c:472-551 | after any run every connection that arrived is, exactly once, waiting, accepted, dropped or refused |
| `LwipAccept.StepKeepsOrder` | extmod/modlwip.c:472-551 | first come, first served; only a drop changes the sequence, by leaving that one connection out |
| `LwipTcp.Socket.Deliver` | extmod/modlwip.c:451-578 | data is appended to the unread chain, a close or error sets the state, and the accounting invariant is kept |
| `LwipTcp.Socket.DeliverAll` | extmod/modlwip.c:451-578 | any callbacks between two accesses leave the socket as the fold over them says, and the byte accounting holds |
| `LwipTcp.Socket.Take` | extmod/modlwip.c:818-847 | hands out a prefix of the unread bytes, as long as asked for within the first buffer, and acknowledges exactly that many |
| `LwipTcp.Socket.Receive` | extmod/modlwip.c:778-848 | with any callbacks between any two accesses before the lock, the answer and the socket are exactly what `Answer` and `Left` give for them; bytes returned extend what was returned before; data there at the call is handed out unless an error takes it; an empty answer hides data exactly when some came between the two tests of a receive that does not wait |
| `LwipTcp.Socket.Wait` | extmod/modlwip.c:794-801 | the waiting loop ends as the recursive reading of its polls says, which `TimesOutExactly`, `WaitEndsHere`, `WaitEndsNext` and `WaitSkips` give in terms of the callbacks |
| `LwipTcp.TimesOutExactly` | extmod/modlwip.c:794-801 | the wait of an idle connected socket times out if and only if no callback comes in any poll |
| `LwipTcp.WaitSkips` | extmod/modlwip.c:794-801 | polls in which nothing happens do not end the wait |
| `LwipTcp.WaitEndsHere` | extmod/modlwip.c:794-801 | a close or error before the first test of a turn, or data before the second, ends the wait there with the callbacks up to it |
| `LwipTcp.WaitEndsNext` | extmod/modlwip.c:794-801 | a close without data, or an error, between the two tests ends the wait at the next test |
| `LwipTcp.WaitGetsData` | extmod/modlwip.c:794-847 | the first data that comes is returned, however many polls pass before it |
| `LwipTcp.AfterIs` | extmod/modlwip.c:451-578 | which kinds of callback occur is all that matters for the state and for whether there is data |
| `LwipTcp.Causes` | extmod/modlwip.c:778-848 | what each ending of a receive says about the socket and the callbacks: missing buffer, end of stream, pending error, EAGAIN, ETIMEDOUT, ENOTCONN |
| `LwipTcp.MissingExactly` | extmod/modlwip.c:783-829 | the first buffer is missing under the lock if and only if the same receive without callbacks in its last gap would hand out bytes, and an error is in that gap |
| `LwipTcp.NotConnectedExactly` | extmod/modlwip.c:794-815 | a waiting receive on a connected socket reports ENOTCONN if and only if data ended its wait and the close, but no error, came between the two tests of the state; the data is still there |
| `LwipTcp.EndExactly` | extmod/modlwip.c:794-807 | a waiting receive on a connected socket reports the end of the stream if and only if the close has come by its test and no data is left, or an error takes it |
| `LwipTcp.PendingExactly` | extmod/modlwip.c:794-815 | it reports the error of the connection if and only if that comes before the tests of the state are over |
| `LwipTcp.Undisturbed` | extmod/modlwip.c:778-848 | the answer of a receive that no callback disturbs, by state |
| `LwipTcp.NotWaiting` | extmod/modlwip.c:783-792 | without data and without waiting, the answer is the end of the stream if and only if the close is known by the second test and no error came, else EAGAIN |
| `LwipTcp.ErrorBeforeTheLock` | extmod/modlwip.c:816-824 | the callbacks on which the buffer is missing under the lock |
| `LwipTcp.ErrorAfterTheWait` | extmod/modlwip.c:794-824 | the same for a receive that began without data and waited |
| `LwipTcp.EndBeforeData` | extmod/modlwip.c:783-790 | the callbacks on which the end of the stream is reported before data |
| `LwipTcp.NotConnectedBeforeData` | extmod/modlwip.c:794-815 | the callbacks on which ENOTCONN is reported with a byte unread |
| `LwipTcp.Session` | extmod/modlwip.c:554-848 | over every interleaving of callbacks and receives, inside a receive too: bytes returned, then the unread chain, are all bytes received, and the total acknowledged is the number returned; the session ends early if and only if `Crashes` says so of the calls |
| `LwipTcp.CrashCause` | extmod/modlwip.c:554-848 | a session ends early only through an error in the last gap of a receive |
| `LwipTcp.RestTake` | extmod/modlwip.c:822-842 | cutting the front of the chain cuts the unread bytes, also where a buffer is used up |
| `Uctypes.ComputeAggSize` | extmod/moductypes.c:145-195 | the size of an aggregate and the threaded maximum, or the error |
| `Uctypes.ComputeSize` | extmod/moductypes.c:197-251 | one pass over the slots computes the specified size and maximum, or the error |
| `Uctypes.WidthOf` | extmod/moductypes.c:40-142 | every scalar type has the width that its name says |
| `Uctypes.WordParts` | extmod/moductypes.c:70-76 | a descriptor word gives back the number and the value it was made of |
| `Uctypes.OneField` | extmod/moductypes.c:217-230 | a packed structure with one scalar or bit field is as long as its offset and the type's width, and the field is read there |
| `Uctypes.OneAggregate` | extmod/moductypes.c:231-242 | the same for one aggregate field |
| `Uctypes.AggregatesAre` | extmod/moductypes.c:145-195 | a structure is as long as its description, a pointer as the target's, an array as so many items |
| `Uctypes.SizedIfWellFormed` | extmod/moductypes.c:145-251 | sizeof fails exactly on descriptors that are not well formed, whatever the layout, target and maximum |
| `Uctypes.SizeMonotone` | extmod/moductypes.c:145-251 | the size is monotone in the threaded maximum, success does not depend on it, and the maximum that comes out is the larger of the one that went in and the descriptor's own |
| `Uctypes.FieldCovered` | extmod/moductypes.c:214-244 | every field, sized on its own, ends inside the accumulated size |
| `Uctypes.AttrInside` | extmod/moductypes.c:402-498 | a field of an object that is inside the root is inside the root |
| `Uctypes.AttrFound` | extmod/moductypes.c:402-498 | in a well-formed structure exactly the fields it lists can be accessed |
| `Uctypes.SubscriptInside` | extmod/moductypes.c:518-588 | an element of an array that is inside the root is inside the root, although indexing sizes it from a fresh maximum |
| `Uctypes.ElementFound` | extmod/moductypes.c:536-542 | in a well-formed array exactly the indexes below its length can be used |
| `Uctypes.WalkInside` | extmod/moductypes.c:402-588 | so is whatever a path of such accesses reaches |
| `Uctypes.WalkInTurn` | extmod/moductypes.c:402-588 | a path is its accesses in turn |
| `Uctypes.SizeofCoversEveryAccess` | extmod/moductypes.c:145-588 | for every nested descriptor and layout, all bytes reached by any path of field accesses and in-range indexes lie within the root's sizeof |
| `Uctypes.AttrEndsWithField` | extmod/moductypes.c:217-498 | field access and sizeof agree: the bytes accessed end exactly where sizeof has the field end |
| `Uctypes.ElementsTile` | extmod/moductypes.c:536-569 | the elements that indexing reaches lie side by side from the array's address to exactly the end that sizeof counts |
| `Uctypes.PackedIgnoresMax` | extmod/moductypes.c:145-251 | in the packed layouts the threaded maximum influences no size |
| `Uctypes.PackedSizeIsFurthestField` | extmod/moductypes.c:212-250 | a packed structure is exactly as long as its furthest field |
| `Uctypes.NativePadding` | extmod/moductypes.c:246-249 | the native layout pads to the next multiple of the largest field and no further |
| `Json.ReadString` | extmod/modjson.c:201-243 | the string loop, escapes and \u included, computes the scanned string and the rest, or fails at the end of input |
| `Json.CheckUtf8` | py/unicode.c:183-209 | the loop with its count of bytes due is the recursive check |
| `Json.ReadNumber` | extmod/modjson.c:257-278 | takes the longest run of number bytes and marks it as float exactly when it has a point or exponent |
| `Json.ReadToken` | extmod/modjson.c:167-304 | the switch and its inner loops, executed byte by byte, compute the lexer; a string that fails the UTF-8 check and a number that the converter refuses are errors |
| `JsonGrammar.LexIs` | extmod/modjson.c:167-304 | which bytes are blanks and brackets, that the literals are exactly their letters, and that every other first byte is an error |
| `JsonGrammar.StringsEnd` | extmod/modjson.c:203-245 | a string needs its closing quote |
| `JsonGrammar.OtherEscapes` | extmod/modjson.c:207-237 | an escape that is not in the table stands for itself |
| `JsonGrammar.EndsIs` | extmod/modjson.c:339-347 | a text may end with space, tab, line or page breaks and then the end or a zero byte, and in no other way |
| `JsonGrammar.CheckCuts` | py/unicode.c:183-209 | what the UTF-8 check accepts begins with one encoded character and goes on with what it accepts |
| `Json.Load` | extmod/modjson.c:148-358 | the loop over stream, stack, top and pending key is the stack machine |
| `JsonParse.HoldsAdded` | extmod/modjson.c:313-326 | storing a value changes what one container holds by exactly that value and leaves the meaning of all older objects alone |
| `JsonParse.LeaveStores` | extmod/modjson.c:279-337 | a container stored in its parent while empty and filled later is, once closed, stored with its full content |
| `JsonParse.BodyRuns` | extmod/modjson.c:160-338 | inside any container and on any stream, the machine fails exactly where the recursive reader fails, and otherwise arrives behind the closing bracket with the content read in place |
| `JsonParse.MachineIsReader` | extmod/modjson.c:112-353 | for every stream of bytes, whatever numbers the interpreter converts and takes for equal: the stack machine accepts it if and only if the recursive reader does, and the object graph it leaves reads as the tree that was read |
| `JsonGrammar.TakesMore` | extmod/modjson.c:112-119 | texts outside the grammar that are taken: an unclosed outermost list, unmatched brackets, a key without a value |
| `JsonGrammar.KeyCarriesOver` | extmod/modjson.c:287-326 | a key that an inner dictionary left behind serves the next one |
| `JsonGrammar.StillRefused` | extmod/modjson.c:287-351 | texts that are refused: nothing, a closing bracket alone, an unclosed inner container, a container for a key, anything but space behind the value |
| `JsonGrammar.EscapeAgrees` | extmod/modjson.c:207-222 | the loader's short escapes are those of the grammar |
| `JsonGrammar.UnicodeEscape` | extmod/modjson.c:223-234 | the bytes added for a \u escape are the UTF-8 encoding of the code point its digits spell |
| `JsonGrammar.ScanChars` | extmod/modjson.c:203-245 | the text of any characters, however escaped, scans to the bytes they denote |
| `JsonGrammar.CharsPass` | extmod/modjson.c:245-245 | what any characters of the grammar denote passes the UTF-8 check made when the string object is built |
| `JsonGrammar.LexNumber` | extmod/modjson.c:257-278 | every number of the grammar is read whole and with the right kind, and refused exactly when the converter refuses it |
| `JsonGrammar.LexAtom` | extmod/modjson.c:167-278 | every scalar text is read as the scalar it denotes and no byte more |
| `JsonGrammar.ParseDoc` | extmod/modjson.c:160-338 | the text of any value, arbitrarily nested and spaced, is read as that one value in the open container |
| `JsonGrammar.ParseItems` | extmod/modjson.c:313-337 | the elements of a list are read in order |
| `JsonGrammar.ParseMembers` | extmod/modjson.c:313-337 | the members of an object are read in order, key before value, the last of equal keys winning |
| `JsonGrammar.LoadsEveryText` | extmod/modjson.c:112-353 | every text of the grammar, with any whitespace, is accepted if and only if the interpreter converts its numbers, and the object graph left behind reads as the tree it denotes; no key was pending at any push or pop |
| `Websocket.WebSocket.OnHeader` | extmod/modwebsocket.c:95-144 | the two header bytes lead to the phase, length and flags of the frame on the wire |
| `Websocket.WebSocket.OnOptions` | extmod/modwebsocket.c:146-162 | the extended length and the key are those of the frame on the wire |
| `Websocket.WebSocket.Unmask` | extmod/modwebsocket.c:178-181 | unmasks with the key from the saved position, across its 8-bit wrap, by the exclusive or that `Octets.XorBit` describes |
| `Octets.XorBit` | extmod/modwebsocket.c:178-181 | each bit of the exclusive or is set exactly when one of the two bits is and the other is not |
| `Websocket.HeadIs` | extmod/modwebsocket.c:116-150 | the length in seven bits, or 126 and sixteen bits with the high byte first; the mask bit; the key last |
| `Websocket.BodyIs` | extmod/modwebsocket.c:178-181 | each bit of a masked byte is flipped exactly where the key byte has a bit |
| `Websocket.StandardExamples` | extmod/modwebsocket.c:93-235 | the examples of section 5.7 of RFC 6455 |
| `Websocket.ReplyIs` | extmod/modwebsocket.c:196-201 | what answers a close frame is an empty close frame |
| `Websocket.WebSocket.TakePayload` | extmod/modwebsocket.c:172-183 | returns exactly the next piece of the frame's plain payload |
| `Websocket.WebSocket.CloseOff` | extmod/modwebsocket.c:184-206 | ends the frame; a close frame, and no other, is answered by 0x88 0x00 |
| `Websocket.WebSocket.OnPayload` | extmod/modwebsocket.c:164-213 | what is returned comes off the front of the remaining payloads, except that a control payload is returned as data if and only if the stream gives some but not all of its rest |
| `Websocket.WebSocket.Read` | extmod/modwebsocket.c:77-217 | one read of any size at any interruption point: returned bytes come off the front of the remaining payloads and are a piece of one frame; part of a control payload is returned instead if and only if `LeakAhead` said so before the call; the opcode on record is that of the last frame that is not a continuation; only finished close frames are answered |
| `Websocket.GenerousLeak` | extmod/modwebsocket.c:164-213 | over a stream that withholds nothing, a read leaks if and only if a control payload longer than its size comes before any data |
| `Websocket.PingLeaks` | extmod/modwebsocket.c:164-213 | a masked ping of two bytes, read with size one, returns its first byte as data |
| `Websocket.MessageOpcode` | extmod/modwebsocket.c:98-111 | the opcode on record after a message and its continuations is the message's if and only if no control frame came in between |
| `Websocket.Session` | extmod/modwebsocket.c:77-217 | for any permitted frames, masks, chunking with retries and read sizes: the bytes returned from data frames, then what remains, are the concatenation of the payloads; nothing else is returned if and only if no read leaked, as when control frames are empty; each finished close frame was answered once |
| `Websocket.Write` | extmod/modwebsocket.c:219-235 | emits one unmasked frame with the shorter length form |
| `Websocket.WrittenIsFrame` | extmod/modwebsocket.c:219-235 | the bytes written are the encoding of that frame |
| `Websocket.Exchange` | extmod/modwebsocket.c:77-235 | reading what any sequence of writes emitted, in any pieces and sizes, gives the written bytes in order and nothing else, each piece from one write and with the opcode on record for it |
| `Websocket.WriteAll` | extmod/modwebsocket.c:219-235 | any sequence of writes puts exactly the encoding of their frames on the stream |
| `Websocket.PieceOpcode` | extmod/modwebsocket.c:98-111 | a piece of a write that was not a continuation carries that write's opcode |
| `SoftI2c.SlaveReadsByte` | extmod/machine_i2c.c:119-132 | eight sampled bits, most significant first, are the byte sent |
| `SoftI2c.MasterReadsByte` | extmod/machine_i2c.c:156-166 | the master assembles what the slave sends exactly as an observer assembles what it sends |
| `SoftI2c.FirstBitIsHighest` | extmod/machine_i2c.c:119-166 | the first bit on the bus is the most significant one |
| `SoftI2c.OnBusIs` | extmod/machine_i2c.c:115-182 | a byte on the bus is its eight bits and the acknowledge bit |
| `SoftI2c.WritesInOrder` | extmod/machine_i2c.c:218-231 | bytes written follow each other, with SDA released for the slave's answer |
| `SoftI2c.ReadsInOrder` | extmod/machine_i2c.c:210-217 | bytes read follow each other, with SDA released for the slave's bits and the master's answer behind them |
| `SoftI2c.BuffersInOrder` | extmod/machine_i2c.c:206-232 | the buffers follow each other, and a read fills as many bytes as they hold |
| `SoftI2c.NacksOnlyTheFinalByte` | extmod/machine_i2c.c:207-217 | a read of these buffers NACKs its final byte and no other, exactly when the last buffer is not empty |
| `SoftI2c.Master.SendStart` | extmod/machine_i2c.c:79-89 | an observer of the wires sees one START and nothing else |
| `SoftI2c.Master.SendStop` | extmod/machine_i2c.c:91-99 | an observer sees one STOP and nothing else |
| `SoftI2c.Master.WriteByte` | extmod/machine_i2c.c:115-146 | the observer sees the eight bits, then a released line; the result is the level the slave gave; time-out exactly when a release was stretched |
| `SoftI2c.Master.ReadByte` | extmod/machine_i2c.c:151-182 | the master leaves SDA alone for eight bits, assembles the slave's levels, then gives the ACK or NACK asked for |
| `SoftI2c.Master.WriteBuffers` | extmod/machine_i2c.c:206-232 | sends the concatenated buffers up to and including the first byte not acknowledged, and counts the acknowledged ones |
| `SoftI2c.Master.ReadBuffers` | extmod/machine_i2c.c:206-232 | fills all buffers with the bytes on the bus and acknowledges as `Nacks` says |
| `SoftI2c.Master.Transfer` | extmod/machine_i2c.c:187-243 | without a time-out the observer sees exactly START, the address byte, the data bytes with their acknowledge bits and, if asked, STOP; ENODEV exactly after an unacknowledged address; nothing follows a NACK; SDA is released on every path, time-outs included |
| `AesCtr.CounterIsModular` | extmod/modcryptolib.c:149-159 | the k-th counter block spells (IV + k) mod 256^16 |
| `Octets.ValueFirst` | extmod/modcryptolib.c:153-158 | the first byte of the counter is the most significant one |
| `AesCtr.SuccessorOfDigits` | extmod/modcryptolib.c:153-158 | the rippling carry is addition of one to the number spelled |
| `AesCtr.Aes.Increment` | extmod/modcryptolib.c:153-158 | the in-place increment loop is that successor |
| `AesCtr.Aes.Process` | extmod/modcryptolib.c:145-166 | output byte i is in[i] XOR E(IV + (pos + i) / 16)[(pos + i) mod 16], also when output and input are one buffer; bytes beyond are untouched |
| `AesCtr.BlockByBlock` | extmod/modcryptolib.c:145-166 | block k is enciphered with the enciphered counter IV + k, the first with IV itself |
| `AesCtr.CryptAppend` | extmod/modcryptolib.c:145-166 | processing a concatenation is processing its parts in turn |
| `AesCtr.CryptTwice` | extmod/modcryptolib.c:145-166 | processing twice from the same position is the identity |
| `AesCtr.SendAll` | extmod/modcryptolib.c:145-166 | any split of the data across calls gives the output of one call |
| `AesCtr.RoundTrip` | extmod/modcryptolib.c:145-166 | enciphering in any chunks and deciphering in any others gives the message back |
| `Heapq.SiftdownStep` | extmod/modheapq.c:43-52 | exchanging an item with its greater parent moves the only misplaced edge up |
| `Heapq.SinkingStep` | extmod/modheapq.c:60-68 | filling the hole with its smaller child keeps every other edge in order |
| `Heapq.RootIsMinimum` | extmod/modheapq.c:81-94 | no item of a heap is less than its root |
| `Heapq.Heap.Siftdown` | extmod/modheapq.c:41-54 | restores the heap order where one edge is out of order, and permutes |
| `Heapq.Heap.Siftup` | extmod/modheapq.c:56-71 | extends the heap order to one more position, and permutes |
| `Heapq.Heap.Push` | extmod/modheapq.c:73-78 | keeps the heap order and adds exactly the item |
| `Heapq.Heap.Pop` | extmod/modheapq.c:81-94 | IndexError if and only if empty; else returns an item that none is less than, removes exactly it and keeps the heap order |
| `Heapq.Heap.Heapify` | extmod/modheapq.c:97-103 | any list becomes a heap of the same items |
| `Heapq.HeapSort` | extmod/modheapq.c:81-103 | heapify and repeated pops give a sorted permutation of any list, under any total preorder |
| `Base64.Letter` | extmod/modbinascii.c:148-165 | the letter of a sextet is the one that decodes to it; 64 is the pad character |
| `Base64.SextetIsPlace` | extmod/modbinascii.c:52-66 | the decoder knows exactly the letters of the alphabet of RFC 4648, each with its place as value |
| `Base64.SymbolsFit` | extmod/modbinascii.c:126-146 | the sextets of an encoding spell the number of the bytes, shifted by the fill bits |
| `Base64.FirstPass` | extmod/modbinascii.c:126-146 | the first pass stores exactly those sextets and the padding |
| `Base64.B2a` | extmod/modbinascii.c:119-169 | both passes give the encoding, in exactly the length allocated |
| `Base64.ShiftedLow` | extmod/modbinascii.c:94-99 | the 32-bit accumulator keeps its low bits although it loses its high ones |
| `Base64.A2b` | extmod/modbinascii.c:68-108 | the decoder computes the whole bytes of the number that the sextets up to the padding spell, or the error; every store is within the allocation |
| `Base64.JunkIsIgnored` | extmod/modbinascii.c:89-92 | inserting a byte outside the alphabet, other than the pad character, anywhere changes no result |
| `Base64.RoundTrip` | extmod/modbinascii.c:52-169 | decoding an encoding gives the bytes back, for every byte string, with or without the newline |
| `Base64.EncodesByGroups` | extmod/modbinascii.c:129-135 | three bytes become four letters, on their own |
| `Base64.EncodesTail` | extmod/modbinascii.c:136-146 | one or two bytes at the end become two or three letters and padding |
| `Base64.StandardExamples` | extmod/modbinascii.c:111-170 | the examples of section 10 of RFC 4648 |
| `Base64.DecodesGroup` | extmod/modbinascii.c:80-101 | four letters are three bytes; two or three with their padding are one or two, and bits beyond the last byte are dropped |
| `Base64.PaddingExactly` | extmod/modbinascii.c:81-105 | letters with padding are refused exactly when one letter is left over, or two with fewer than two pad characters, or three with none |
| `Base64.AfterPadding` | extmod/modbinascii.c:81-85 | nothing behind complete padding matters |

## Left out

- Machine overflow of coordinates, radii, buffer sizes and descriptor offsets: these are mathematical integers. The 16-bit stride, the 8-bit mask position, the 32-bit base64 accumulator and the 8-bit counter bytes are modelled with their wrap-around.
- RGB565 on big-endian targets: the two bytes of a pixel are stored low byte first.
- `blit`, `text`, `hline`, `vline`, `rect`, `fill` and the legacy constructor of the frame buffer: thin loops over the operations that are modelled.
- FbEllipse.DrawArc: the two loops of the source are one method with the axes exchanged, since their bodies differ in nothing else.
- I2S blocking and asyncio copies, and the port's frame mapping table: the mapping is any injective choice of frame bytes, the chunk and the application buffer are whole frames and samples. Callback scheduling is left out.
- LwipAccept.AcceptQueue.constructor: the array is modelled by the slots that the ring uses; for a truncated backlog the source allocates more, which nothing reaches.
- LwipAccept.Execute: each callback is one step, as the lwIP lock makes it; a connection arrives only while it is not already waiting. Waiting and time-outs of accept are left out.
- LwipTcp.Socket.Receive: the clock is the list of polls before the time-out expires; an endless wait is a long enough list. Buffers delivered are not empty. The callback that completes a connect, and assertions, are left out.
- Uctypes: negative indexes, which the source does not check, and access through a pointer are not part of the claim; heads of tuples that are not small integers are syntax errors; values read and written are not modelled, only their addresses.
- JsonGrammar.LoadsEveryText: `\u` escapes of surrogates are not part of the grammar used. Stream errors are left out.
- JsonParse.MachineIsReader: the value of a number is its text and kind; which texts the converters take and which numbers are equal as keys are two arbitrary constants of the model, and of equal key objects the model does not say which one the dictionary keeps. The UTF-8 check of string objects is the one of builds that have it.
- Websocket.Session: frames have FIN set and fewer than 65536 payload bytes, as the source asserts; `ws_flags` starts as 0, where the source leaves it unset; errors of the underlying write are left out.
- SoftI2c: delays are left out; a stretched clock is an input that says at which release the wait ran out. What an observer sees of a transfer that timed out is not described.
- AesCtr: the block cipher is an arbitrary function; ECB and CBC, the key schedule and the mbedTLS variant are left out. Input and output are the same buffer or separate ones, not partly overlapping.
- Heapq: comparisons answer with a truth value and do not change the list; a non-list argument is left out.
- `hexlify`, `unhexlify` and `crc32` are left out.
- Python bindings, port peripherals and network drivers, Bluetooth, select, asyncio, WebREPL, TLS, hashing, deflate, btree and regular expressions: bindings, thin calls, or code in libraries outside this directory.
