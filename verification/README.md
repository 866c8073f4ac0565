# A verified model of the X server's window, drawing, input and protocol core

The server keeps its windows in one resource table, draws every client's
commands into window surfaces in software, types input-method text into clients
as key events, cuts client byte streams into requests, and speaks the PulseAudio
tagstruct format. This project models those parts in Dafny and proves what they
are for. Code that updates state is modelled by classes and loops, each proved
equal to a specification function; the properties are lemmas about those
functions.

| file | part |
|---|---|
| `Basics.dfy`, `ByteOrder.dfy` | sequences, 16-bit truncation, integers as bytes |
| `WindowTree.dfy`, `Destruction.dfy`, `WindowServer.dfy` | the resource table: create, reparent, destroy, select events, free, disconnect, and runs of them |
| `Pixels.dfy`, `Line.dfy`, `Drawing.dfy`, `FrameBuffer.dfy` | raster operations, Bresenham lines, the picture after each command, the in-place renderer |
| `Coalesce.dfy`, `Mailbox.dfy` | dropping redundant full images, the capped mailbox, the display thread |
| `Clip.dfy`, `Moving.dfy`, `Dispatching.dfy` | clearing a window around its children, drawing a window into its ancestor's surface |
| `Glob.dfy` | font-name pattern matching |
| `Keyboard.dfy`, `Ime.dfy`, `Preedit.dfy` | key tables, text sent in batches of remapped keycodes, the preedit loop |
| `Framing.dfy` | request framing, BIG-REQUESTS, sequence numbers, the event queue |
| `Coordinates.dfy`, `Pointer.dfy` | coordinate walks, hit testing, propagation, implicit grabs |
| `Tagstruct.dfy` | tagstruct writer, reader and skipper |

Where the code meets its purpose only under a condition, the code is kept as it
is and the condition is proved exact:

- a request keeps the window table a tree exactly when it meets a guard the
  server never tests (`WindowServer.StepKeepsTree`, `RunKeepsTree`); a client can
  break the tree with three requests (`ReparentUnderChild`);
- destroying a window ends exactly when no window reached from it through children
  lists reaches itself (`DestroyEnds`); on the table those three requests leave, a
  fourth, DestroyWindow, never ends (`DestroyNeverEnds`);
- a disconnect leaves a tree exactly when the root is not the leaving client's and
  each of its windows lies at or below one of its windows directly under the root
  (`DisconnectKeepsTree`, `GuestLeaves`);
- the client-id blocks wrap: the 2048th connection gets the server's own block
  (`BasesDisjoint`);
- a pointer event is lost exactly when no window on its way up selected it before
  the way ends or meets window 0, or the first selection of the nearest one that did
  is that of a client that has left, which swallows it although other clients
  selected it (`PropagateLoses`, `DepartedSwallows`);
- coalescing is invisible exactly when the kept image overwrites every visible
  pixel; the code tests only position and size (`CoalesceExact`);
- clipping is exact for every list of children exactly when the rectangle's far
  edges fit in 16 bits (`ClipExactIff`), and shows as exact on a given surface
  exactly when no strip wraps into sight or out of it (`ClipExactOn`,
  `Dispatching.ClearExactly`);
- a window's image shows the same in its ancestor's surface as on one of its own, for
  all data, exactly when it is not seen or its cut-off part is cut off on both
  (`ImageMovesExactly`: the renderer does not skip cut-off columns and rows), and a
  copy exactly when both surfaces clip it to the same effect (`CopyMovesExactly`);
- a clear stays inside its window exactly when its rectangle does (`ClearStays`):
  nothing clips a window's commands to the window;
- the matcher decides the wildcard relation for every pattern exactly when the
  name holds no `*`, because a literal match is tried before a star
  (`MatcherExact`); it never accepts a name it should reject (`MatchesSound`);
- typed text arrives unchanged exactly when every character is printable ASCII or
  lies beyond Latin-1 (`TypedExact`): U+0080 to U+00FF is sent as Unicode keysyms
  below 0x01000100, which the comment at `src/server/mod.rs:1127-1131` says the
  client does not read, and control characters come out as editing keys;
- the preedit loop keeps the client in step exactly when every event that erases
  has a focus window, a replacement that meets a pending preedit erases everything,
  and every text can be typed (`RunKeepsSync`);
- the pointer loop's grab, button count and crossing events stay consistent exactly
  as long as no real press is aimed at window 0, which GrabPointer may name, and no
  motion leaves a window for 0 (`RunConsistent`, `GrabOnNothing`);
- a grab lasts exactly as long as some button is down after every event and every
  motion says so (`DragLasts`);
- a window whose far edge passes 0x7FFF cannot be hit at all (`SpanExact`);
- packets numbered low byte first, which are errors and the NoExposure events of
  CopyArea, reach big-endian clients with their sequence number byte-swapped, which
  shows exactly when its two bytes differ (`StampExact`, `WireStamps`,
  `NoExposureMisread`);
- the skipper stays aligned over every kind of value written except timevals and
  unsigned 64-bit values (`SkipBack`).

## Conventions

Sixteen-bit coordinates wrap, as in a release build, through `I16`; 32-bit
intermediate coordinates cannot overflow on 16-bit inputs and are plain integers.
Atomics and locks are taken as given: each method is one request, event or drain.
A pixel is one 4-byte word, surfaces are rows of whole words (pixmaps have a
stride of four times their width, native surfaces a stride that is a multiple of
four), and a surface holds exactly `stride * height` words, as both callers of
the renderer provide. Image data is its whole words; a trailing partial word is
never read by the source either.

Several proofs use `hide` statements: they only withhold definitions from the
solver.

## Model

| member | source | states |
|---|---|---|
| WindowServer.RunKeepsTree | src/server/connection.rs:1097-1382 | over every run of requests from a tree, the table is a tree after each one (children lists and parent fields agree, each child listed once, every window reaches the root) exactly when each request met its guard when made |
| WindowServer.StepKeepsTree | src/server/connection.rs:1097-1382 | one create, reparent, destroy, resource insert, free or disconnect keeps the tree if and only if its guard holds |
| WindowTree.CreateKeeps | src/server/connection.rs:1097-1108 | creating a fresh id under an existing window keeps the tree |
| WindowTree.CreateExactly | src/server/connection.rs:1097-1108 | the new record is unmapped, childless and at the position and size asked for, its parent lists it last, and nothing else changes |
| WindowTree.CreateBreaks | src/server/connection.rs:1097-1108 | every other create (unknown parent, id of a live window) breaks it |
| Destruction.CreateThenDestroy | src/server/connection.rs:1305-1342 | destroying a window just created restores the table |
| WindowTree.ReparentKeeps | src/server/connection.rs:1359-1382 | moving a window to a window outside its own subtree keeps the tree |
| WindowTree.ReparentExactly | src/server/connection.rs:1359-1382 | the window is at the new position, its size and other fields kept, under the new parent that lists it last; the old parent lists the others in order; nothing else changes |
| WindowTree.ReparentBreaks | src/server/connection.rs:1359-1382 | any other effective reparent breaks it, by an orphan or a cycle |
| WindowServer.ReparentUnderChild | src/server/connection.rs:1359-1382 | three accepted requests from the initial table that leave no tree |
| Destruction.DestroyExactly | src/server/connection.rs:1305-1342 | on a tree a destroy removes exactly the subtree, unlinks it from the parent keeping the order of the others, and changes no other entry |
| Destruction.DestroyEnds | src/server/connection.rs:1318-1321 | on every table the recursion ends at some depth if and only if no window reached through children lists reaches itself |
| Destruction.RunExactly | src/server/connection.rs:1305-1342 | whenever it ends, on any table, it has visited exactly the windows reached, once each and children first, and the table is the old one without them and without their ids in the lists of the windows their parent fields name |
| Destruction.RemovedExactly | src/server/connection.rs:1324-1330 | on every table what a destroy leaves differs from before only in children lists, by the removed windows whose parent field names the lister |
| Destruction.HandlesExactly | src/server/connection.rs:1333-1337 | the native windows closed along a visit order are those of the windows that have one, each once, in that order |
| WindowServer.DestroyNeverEnds | src/server/connection.rs:1318-1321 | a DestroyWindow after those three requests ends at no depth |
| Destruction.TreeAcyclic | src/server/connection.rs:1305-1342 | on a tree every destroy and every disconnect ends |
| WindowServer.Server.DestroyWindowRecursive | src/server/connection.rs:1305-1342 | on every table where it ends, the recursion over the table it mutates does what the bounded recursion does, removes exactly what is reached, and closes the native window of each window removed once, children first |
| WindowServer.Server.DestroyEach | src/server/connection.rs:1318-1321 | the same for the loop over children or over a leaving client's windows, each on the table the ones before it left |
| WindowServer.Server.CreateWindow | src/server/connection.rs:1097-1108 | appends to the parent's list and inserts the record, with no test of either id |
| WindowServer.Server.ReparentWindow | src/server/connection.rs:1359-1382 | the table after the move, for every table and pair of ids |
| WindowServer.EntryReplaced | src/server/connection.rs:3384-3393 | freeing an id, or storing another resource under it, keeps the tree exactly when no window had it |
| WindowServer.Server.DisconnectClient | src/server/connection.rs:400-432 | on every table where it ends and whatever order top-level windows are visited in, the final table and the closed native windows are determined, and just the selections owned by other clients' ids are kept, with their owners |
| WindowServer.DisconnectRemoves | src/server/connection.rs:408-430 | after a disconnect no owned id remains, and another client's entry disappears exactly when it lay below an owned top-level window; all others but the root's list are unchanged |
| WindowServer.Server.SetSelectionOwner | src/server/connection.rs:4287-4306 | owner 0 gives a selection up, any other takes it |
| WindowServer.OwnersExactly | src/server/connection.rs:403-406 | over every run of claims and departures a selection has an owner if and only if some claim gave it one, no later claim was made on it and that owner's client has not left since; and that claim names the owner |
| WindowServer.DisconnectKeepsTree | src/server/connection.rs:408-430 | the tree survives exactly when every owned window lay below an owned top-level window and the root is not owned |
| WindowServer.GuestLeaves | src/server/connection.rs:427-430 | the run in which one client puts a window inside another's and leaves ends without a tree |
| WindowServer.Server.SelectEvents | src/server/connection.rs:1176-1186 | the search for the client's entry rewrites the first one or appends one |
| WindowServer.ChosenFacts | src/server/connection.rs:1180-1184 | each client keeps one mask per window, its last, and the other entries keep their places |
| WindowServer.BasesDisjoint | src/server/mod.rs:296-298 | the id blocks of two connections meet exactly when their numbers differ by a multiple of 2048; the server's block is handed out at every 2048th |
| Pixels.OverwritesIgnoresOld | src/display/renderer.rs:10-34 | the listed operation and source pairs leave the same pixel whatever was there |
| Pixels.NotOverwritingShows | src/display/renderer.rs:10-34 | every other pair tells two opaque old pixels apart |
| Pixels.XorTwice | src/display/renderer.rs:38-57 | drawing a colour twice with GXxor restores exactly the opaque pixels |
| Pixels.CombineIsTable | src/display/renderer.rs:10-34 | each of the sixteen functions computes, bit by bit, the truth table that its number spells, and an unknown number copies |
| Pixels.OperationsFollowTable | src/display/renderer.rs:38-57 | lines, outlines, fills and images leave the table's colours and an opaque alpha, GXnoop the pixel as it was; a GXxor fill is excepted |
| Pixels.HighlightBlends | src/display/renderer.rs:100-119 | a GXxor fill leaves each colour blended with that of the highlight, 77 parts in 255 rounded down, and opaque |
| Drawing.CopyFollowsTable | src/display/renderer.rs:270-380 | a copy combines by the table too, and GXcopy takes the whole source word |
| Drawing.ImageLands | src/display/renderer.rs:166-226 | where nothing is cut off, row j of an image, word i, lands i right of and j below its corner |
| Drawing.CopyLands | src/display/renderer.rs:270-380 | where nothing is cut off, a copied pixel comes from as far right of and below the source corner, and all others stay |
| Drawing.FillLands | src/display/renderer.rs:67-141 | a fill or clear covers the visible points of its rectangle and no others |
| Line.LineIsIdeal | src/display/renderer.rs:146-165 | the line runs from endpoint to endpoint, its k-th point is k units out on the longer axis and within half a pixel of the ideal line |
| Line.LoopStep | src/display/renderer.rs:158-164 | one round of the error-term loop moves from the k-th rounded point to the next |
| Line.LoopExit | src/display/renderer.rs:161 | the exit test succeeds after max(\|dx\|, \|dy\|) steps and not before |
| Line.PointsDistinct | src/display/renderer.rs:158-164 | no point is visited twice |
| Drawing.XorLineTwice | src/display/renderer.rs:143-165 | a GXxor line drawn twice gives back the picture exactly when its visible line pixels are opaque |
| Drawing.XorOutlineSkipsCorners | src/display/renderer.rs:227-243 | a GXxor rectangle outline flips its edges but not its corners |
| FrameBuffer.Surface.Line | src/display/renderer.rs:143-165 | the in-place loop ends and combines exactly the visible points of the line, each once |
| FrameBuffer.Surface.FillRect | src/display/renderer.rs:70-133 | all three fill paths leave each pixel of the clipped rectangle filled and every other word unchanged |
| FrameBuffer.Surface.Rect | src/display/renderer.rs:227-243 | both edge loops, pixels counted with the edges through them |
| FrameBuffer.Surface.Image | src/display/renderer.rs:166-226 | the row-copy and the per-pixel path write the words the data has, and nothing past the visible width |
| FrameBuffer.Surface.Copy | src/display/renderer.rs:270-380 | ordered in-place, temporary-buffer and per-pixel paths all equal a simultaneous copy of the clipped rectangles, for every overlap |
| FrameBuffer.Surface.RenderBatch | src/display/macos.rs:2244-2262 | a drained batch is coalesced and rendered; if the kept image covers the window the surface ends up as after the whole batch |
| Drawing.PaddingKept | src/display/renderer.rs:62-265 | no batch touches the words past the visible width |
| Coalesce.CoalescePutImage | src/display/macos.rs:1513-1546 | the index search and the filter keep everything but the earlier full images |
| Coalesce.CoalescedExactly | src/display/macos.rs:1513-1546 | just the images at the origin at least as large as the window that another such image follows are left out, the other commands staying in order |
| Coalesce.CoalesceSound | src/display/macos.rs:1513-1546 | rendering the coalesced batch equals rendering the whole batch, for any mix of commands, when the last full image covers the window |
| Coalesce.CoalesceExact | src/display/ios.rs:2184-2207 | for a given kept image that holds in every batch on every picture if and only if the image covers the window |
| Mailbox.RenderMailbox.Post | src/server/connection.rs:2289-2300 | whatever was posted and drained before, the last 4096 commands posted since the last drain are pending, in order |
| Mailbox.RenderMailbox.Drain | src/display/macos.rs:2235-2240 | a drain takes exactly those and leaves none |
| Mailbox.DropTwice | src/server/connection.rs:2294-2299 | capping at every post keeps what capping once at the drain would |
| Mailbox.DrainToSurface | src/display/macos.rs:2227-2262 | drain, coalesce and render together show the pending commands |
| Clip.ClipClearByChildren | src/server/connection.rs:2228-2287 | the two loops compute the strips left of a rectangle, casts included |
| Clip.ClippedExact | src/server/connection.rs:2228-2287 | the rectangles returned are disjoint, non-empty if the input is, and hold exactly the points in no child, for any children |
| Clip.ClipExactIff | src/server/connection.rs:2257-2276 | exact against every list of children if and only if the far edges fit in 16 bits or the rectangle is empty |
| Clip.WrappedStrip | src/server/connection.rs:2260 | a child for which any other rectangle is clipped wrongly |
| Clip.ClipExactOn | src/server/connection.rs:2257-2276 | on a surface of a given size, exact against every list of children as far as can be seen if and only if the rectangle does not show, not even wrapped, or no strip of it wraps into sight or out of it |
| Dispatching.ClearsGoAround | src/server/connection.rs:2403-2442 | for any mix of commands to a native window whose clears have that property, the surface ends up as if each clear painted its points outside the mapped children and nothing else |
| Dispatching.ClearExactly | src/server/connection.rs:2403-2442 | for one clear that holds with all children and all pictures if and only if it has that property |
| Moving.MovedShows | src/server/connection.rs:2497-2532 | a batch of a window's commands moved into its ancestor's surface leaves there, in the window's place, what it would leave on a surface of the window's own, if no coordinate wraps and images and copies are placed as the next two rows say |
| Moving.ImageMovesExactly | src/display/renderer.rs:166-226 | a complete image does so for all data and pictures if and only if it is not seen, or nothing is cut off it on one surface only, or the operation ignores its words and they still reach across the window |
| Moving.CopyMovesExactly | src/display/renderer.rs:270-380 | a copy does so for all pictures if and only if, clipped at either surface's edges, it acts on neither, or ends at the same places of the window and reads equally far away |
| Moving.ImageDisplaced | src/display/renderer.rs:166-226 | an image that starts left of the window for which the two differ |
| Moving.OutsideKept | src/server/connection.rs:2497-2532 | a batch that draws inside the window changes nothing else of the ancestor's surface |
| Moving.ClearStays | src/display/renderer.rs:70-133 | a clear changes nothing outside the window in any picture if and only if what the surface's edges leave of it lies inside |
| Dispatching.ClipByChildren | src/server/connection.rs:2406-2442 | the loops over commands and children clip every clear by the mapped children and keep the other commands in place |
| Dispatching.DispatchRenderCommands | src/server/connection.rs:2370-2478 | which surface a window's commands go to, clipped or moved |
| Dispatching.MappedCover | src/server/connection.rs:2406-2419 | the rectangles clipped against cover the points of the mapped children and no others |
| Dispatching.DispatchedNative | src/server/connection.rs:2403-2442 | a native window's commands go to its surface and show there with every clear kept out of the mapped children |
| Dispatching.DispatchedMoved | src/server/connection.rs:2444-2477 | any other window's commands go to its nearest native ancestor and show there, at its distance on the screen from it, what they would on a surface of its own |
| Glob.FontPatternMatch | src/server/connection.rs:4190-4216 | the backtracking loop ends, by star, restart and scan position, with the matcher's verdict |
| Glob.GlobMatch | src/font/xlfd.rs:108-138 | the second copy gives the same verdict on all inputs |
| Glob.ScanIsWild | src/server/connection.rs:4190-4216 | on star-free names the scan from any state answers whether the rest matches or a later start of the last star would |
| Glob.MatcherExact | src/server/connection.rs:4197 | against a name the verdict is the wildcard relation for every pattern if and only if the name holds no star |
| Glob.MatchesSound | src/server/connection.rs:4190-4216 | an accepted name matches the pattern, whatever it holds |
| Keyboard.PrintableReadsBack | src/server/mod.rs:1391-1482 | the key sent for a printable character carries it in the keysym table, shifted as sent |
| Keyboard.Controls | src/server/mod.rs:1449-1455 | which editing key each control character becomes; the rest become a space |
| Keyboard.GetKeyboardMapping | src/server/connection.rs:3752-3779 | the reply rows are the virtual keysyms from 120 up and the static table below |
| Keyboard.DigitKeys | src/server/connection.rs:3799-3826 | keycodes 10 to 19 are the digit keys, in both tables |
| Keyboard.UpperKeys | src/server/connection.rs:3799-3826 | keycodes 24 to 33 are the keys from q to p, in both tables |
| Keyboard.HomeKeys | src/server/connection.rs:3799-3826 | keycodes 38 to 46 are the keys from a to l, in both tables |
| Keyboard.LowerKeys | src/server/connection.rs:3799-3826 | keycodes 52 to 58 are the keys from z to m, in both tables |
| Keyboard.FunctionKeys | src/server/connection.rs:3799-3826 | keycodes 67 to 76, 95 and 96 carry F1 to F12 |
| Ime.TypedExact | src/server/mod.rs:1199-1244 | typing appends the text unchanged if and only if every character is printable ASCII or beyond Latin-1 |
| Ime.BatchDelivered | src/server/mod.rs:1248-1297 | a batch types its characters into any client, whatever table the client held |
| Ime.BatchWellFormed | src/server/mod.rs:1248-1297 | tables announced have 1 to 136 distinct keysyms and every keycode sent is 8-bit and within the table in force |
| Preedit.Dispatcher.BuildBatch | src/server/mod.rs:1222-1247 | a batch takes at least one character and stops only at a new character that the full table cannot hold |
| Preedit.Dispatcher.SendText | src/server/mod.rs:1198-1301 | for any text, any client receiving the wire types the normalised text in order |
| Preedit.CharacterTyped | src/server/mod.rs:1199-1205 | fullwidth characters are typed as the ASCII they stand for, an ideographic space as a space, a yen sign as a backslash, every other typable character as itself |
| Preedit.AppendedConcat | src/server/mod.rs:1199-1301 | a text is typed one part after the other |
| Preedit.Dispatcher.SendBackspaces | src/server/mod.rs:1312-1387 | the wire erases that many characters, or nothing without a focus window |
| Preedit.Dispatcher.Handle | src/server/mod.rs:707-787 | each event's effect on the client's text and on the loop's locals |
| Preedit.EventKeepsSync | src/server/mod.rs:707-787 | after an event the client shows committed text then preedit if and only if the event met its guard and its text can be typed |
| Preedit.RunKeepsSync | src/server/mod.rs:707-787 | over every run that holds throughout if and only if every event met its guard and every text can be typed, from any client text of typable characters |
| Preedit.IdleKeepsSync | src/server/mod.rs:707-787 | so from the loop's start and an empty text, over every run whatever |
| Preedit.FailuresCancel | src/server/mod.rs:1316-1323 | on other client texts an unfocused replacement that cannot be typed may go unnoticed |
| Preedit.UnfocusedPiles | src/server/mod.rs:1316-1323 | without a focus window a changed preedit is appended to the old one |
| Framing.SplitInvariance | src/server/connection.rs:277-320 | for any split into read chunks the handlers get the requests of the whole stream and the unparsed rest stays pending |
| Framing.StreamRoundTrip | src/server/connection.rs:280-325 | a stream of messages in short and extended form is framed into exactly those, with the same opcode, data byte and body for handlers in both forms |
| Framing.StreamShape | src/server/connection.rs:284-316 | every stream is whole messages and then an incomplete one, or else a header with an extended length under two words, at which the connection fails |
| Framing.RunReads | src/server/connection.rs:277-320 | in every run of reads, queued events and deliveries the requests handled and the bytes pending are those of the chunks read |
| Framing.Connection.OnRead | src/server/connection.rs:277-358 | one read frames, numbers and answers every complete request under a wrapping 16-bit counter, then delivers what is queued |
| Framing.Connection.DeliverEvents | src/server/connection.rs:354-390 | queued events go out in order, bytes 2 and 3 of each overwritten with the number of the last framed request |
| Framing.WireStamps | src/server/connection.rs:304-390 | over every run, whatever numbers events were queued with: packets are written in the order of their numbers, each reads as the number of requests framed when it was written modulo 65536 exactly when the client is little-endian, or it was numbered in the client's order, or the two bytes are equal, and no queued event is lost, repeated, overtaken by another queued event or otherwise altered |
| Framing.AnswersInOrder | src/server/connection.rs:325-346 | a request's answers go out as its handler writes them, byte for byte but for the number, the loop's error last, all under the request's place in the stream |
| Framing.QueueAfter | src/server/connection.rs:350-358 | a read that does not fail leaves nothing queued, and a delivery takes the oldest events |
| Framing.ErrorLayout | src/server/connection.rs:326-344 | which byte of an error packet holds what |
| Framing.NoExposureLayout | src/server/connection.rs:2699-2709 | which byte of a NoExposure event holds what |
| Framing.StampExact | src/server/connection.rs:326-344 | each packet stamped in either mode reads as its number in exactly those cases |
| Framing.NoExposureMisread | src/server/connection.rs:2696-2744 | a big-endian client's first CopyArea is answered by an event that reads as 256, ahead of an event queued before it |
| Framing.Connection.HandleRequest | src/server/connection.rs:304-346 | one request is counted and what its handler and the loop write goes out at once under its number, while events queue |
| Coordinates.TranslationLaws | src/server/connection.rs:4679-4683 | translations compose, are undone by their reverse and are the identity within a window, on every table and with wrap-around |
| Coordinates.TranslationOnScreen | src/server/connection.rs:4679-4683 | between windows at most 32 levels deep in a tree, a translated point is the same point of the screen |
| Coordinates.RootWalkIsOffset | src/server/connection.rs:4561-4585 | on a tree at most 32 deep the root walk is the window's offset from the root |
| Coordinates.FromRootSteps | src/server/connection.rs:4561-4585 | on a tree a window's place is its parent's plus the position in its record |
| Coordinates.WalksAgree | src/server/connection.rs:2340-2368 | a pixel's native position is the pixel moved by the offset its render commands get, on every table |
| Coordinates.DispatchIsRootDistance | src/server/connection.rs:2447-2477 | that offset is the window's distance on the screen from the native window that receives its commands |
| Coordinates.SpanExact | src/server/mod.rs:1511-1515 | the hit test is exact along an axis if and only if the span ends within 16 bits, and never succeeds otherwise |
| Coordinates.FindChildAtPoint | src/server/mod.rs:1486-1531 | the two loops compute the descent, at most 16 levels |
| Coordinates.DescendFacts | src/server/mod.rs:1486-1531 | the target is reached through topmost hits only, carries the point in its own frame, and has no hit child unless the depth limit was met |
| Coordinates.TargetExactly | src/server/mod.rs:1486-1531 | every window on the way to the target is mapped and contains the point, by its own position and size in its parent's frame, with no later sibling that does; unless the search was cut at 16 levels no mapped child of the target contains the point; windows with a far edge past 0x7FFF never count |
| Coordinates.MotionMasks | src/server/mod.rs:974-983 | the bits of an event mask that select a motion |
| Coordinates.PropagateFacts | src/server/mod.rs:927-967 | a delivered event goes to the nearest ancestor with a matching selection and to the connection of its first one, names its child on the path, and carries the same point |
| Coordinates.PropagateLoses | src/server/mod.rs:986-1024 | on every table an event is lost if and only if, of the first 32 windows up before any window 0, none has a matching selection, or the first one of the nearest that has names a connection that is gone |
| Coordinates.DepartedSwallows | src/server/mod.rs:938-961 | after a disconnect the departed client's entry swallows presses that a live client selected on the same window |
| Coordinates.SamePointOfScreen | src/server/mod.rs:911-1025 | hit test and propagation together report the same point of the screen in the receiving window's frame |
| Pointer.PointerLoop.OnPress | src/server/mod.rs:555-609 | a real button leaves the window last entered, enters its target and is counted, the first one fixing grab and offset; a scroll button is only sent |
| Pointer.PointerLoop.OnRelease | src/server/mod.rs:611-631 | where the release goes and when the grab ends |
| Pointer.PointerLoop.OnMove | src/server/mod.rs:632-686 | the crossings and the motion sent, and the broken grab when no button is held |
| Pointer.RunConsistent | src/server/mod.rs:555-686 | over every run the grab is active exactly while real buttons are counted, and enters and leaves alternate, each leave naming the window last entered, if and only if no real press is aimed at window 0 and no motion goes from a window to 0 |
| Pointer.PressesDecide | src/server/mod.rs:534-577 | when motions find windows, that is if and only if every real press has a target other than 0 |
| Pointer.GrabOnNothing | src/server/mod.rs:534-577 | a press redirected to window 0 is counted without a grab, and 0 is entered and never left |
| Pointer.DragLasts | src/server/mod.rs:558-641 | over every run a grab lasts if and only if a button is down all along and every motion says so; then window and offset never change, and every motion and real release goes to that window by that offset |
| Pointer.DragFollows | src/server/mod.rs:562-563 | from a real press on, while the grab lasts and up to the release that ends it, each motion and real release is reported to the window pressed on, as far from where the press was reported as the pointer is from where it was pressed |
| Pointer.DragStaysInFrame | src/server/mod.rs:558-563 | when the press went to the window its point hit, each of those points is the pointer's point of the screen in that window's own frame, inside it or not |
| Pointer.FreeInFrame | src/server/mod.rs:555-686 | after any run, a press, a scroll, or a motion or release without a grab goes to the window its point hit, at the same point of the screen, and motions and real presses enter it |
| Tagstruct.MixedRoundTrip | src/audio.rs:75-345 | any mix of reads and skips over written values returns the read values and ends exactly at the end |
| Tagstruct.ReadBack | src/audio.rs:179-294 | each reader yields the value written and stands at its end |
| Tagstruct.Layout | src/audio.rs:75-155 | the letter each kind of value begins with, and which of its bytes hold which field, numbers most significant byte first |
| Tagstruct.ListLayout | src/audio.rs:264-294 | a property list is its entries, each a key, a length and a value, and a null string |
| Tagstruct.Utf8Exactly | src/audio.rs:195 | the bytes taken for text are exactly the UTF-8 encodings of Unicode scalar values |
| Tagstruct.StringRead | src/audio.rs:187-206 | bytes that are no text read as the empty string, and are left behind |
| Tagstruct.SkipBack | src/audio.rs:297-345 | the skipper stands at the value's end for every kind written if and only if it is no timeval and no unsigned 64-bit value |
| Tagstruct.TagReader.NextProplist | src/audio.rs:264-294 | on arbitrary bytes the loop ends, stays in range and yields the specified result |
| Tagstruct.TagReader.SkipValue | src/audio.rs:297-345 | on arbitrary bytes the skipper stays in range and moves as specified |
| Tagstruct.TagWriter.PutChannelMap | src/audio.rs:107-116 | the pushes and the loop write left, right and unpositioned channels |

## Left out

- Moving.MovedShows: coordinates that wrap when moved, and incomplete images of which the two surfaces show different rows, are left out; ImageMovesExactly and CopyMovesExactly are exact for what does not wrap, and for complete images.
- Moving.OutsideKept: one-way, but for clears, where ClearStays is exact.
- Dispatching.DispatchRenderCommands: a pixmap's commands are rendered at once and not dispatched.
- Arcs, polygons, text glyphs: floating point or opaque rendering; the drawing commands are the integer ones.
- Byte offsets past 32 bits in the renderer: they need a surface over 4 GiB or an image row number over 16384.
- Short buffers: the renderer's buffer-length tests always pass on surfaces that hold stride times height words, and the paths they skip are not modelled.
- WindowServer.Server.DestroyWindowRecursive: requires that nothing reached is on a cycle, which is exactly where it ends; a method cannot model a recursion that does not.
- Window attributes other than geometry, mapping, native handle and event selections.
- The order of requests from several clients inside one handler: each handler is one step.
- Preedit.Dispatcher.SendText: one fixed target client is modelled, not the search for the window and connection, and the client is taken to fetch the keysym table at every MappingNotify, without the 200 ms limit on the wait.
- Keyboard layouts read from the operating system, which override the static key table when present.
- UTF-8 prefixes in the preedit comparison are prefixes of code points, which is the same for valid strings.
- Explicit pointer grabs appear as the target, 0 included, that a press hands to the pointer loop; autoscroll, cursors and focus events are left out.
- Framing.Connection.OnRead: what handlers reply, and what is queued while they run, is any function of the request and its number; reading zero bytes and write errors are left out.
- Integer values of the tagstruct 64-bit kinds are two 32-bit halves.
- Connection setup, compression, sockets, atoms, selection timestamps and transfers, fixed-layout replies and extensions.
