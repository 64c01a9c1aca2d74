# Verified model of the Windows runner and the bundled MariaDB inlines

The product is a Flutter application with a native Windows runner, shipped with a MariaDB server whose
headers hold inline code.  This project models the code that has a body there and proves what it keeps.
`dafny verify dfyconfig.toml` checks the whole project.

**The window life cycle** (`WindowModel`, `WindowInvariants`, `WindowRuns`, `Win32Runner`).  `Win32Runner`
is the program as written: objects with fields, the global count, the registrar's flag, and an operating
system that calls `WndProc` from inside `DestroyWindow` and `CreateWindow`.  Each method is proved equal to a
function of `WindowModel`, which gives the combined effect of the nested calls at once; `WindowRuns` proves
what holds in every quiescent state of every run over any number of windows.  The operating system is explicit
state: registered class, windows with user data, posted quits.  It may hand out the handle value of a closed
window again.  Its answers (does `RegisterClass` succeed, which handle does `CreateWindow` return, does the
engine come up, does the controller claim a message) are parameters of the steps.  A `FlutterWindow` whose own
destructor has run is a plain `Win32Window` for virtual calls.

Three things the code is meant to keep are true only under a condition, and each is proved with the exact one:

* Handles agree with the operating system exactly when no controller lets `WM_CLOSE` through and then claims
  `WM_DESTROY`.  Otherwise the handle stays behind; `StaleHandleClosesForeignWindow` is a run in which
  destroying that object later closes another object's window.
* `class_registered_` agrees with the operating system exactly when no `RegisterClass` call fails, because the
  result of that call is not looked at.  After one refusal every `Create` of every object fails until the last
  object is gone (`BlockedUntilLastObject`); `RefusedRegistration` is such a run.
* No run dereferences a null controller, but a run does dereference a null engine exactly when an unclaimed
  `WM_FONTCHANGE` arrives after an `OnCreate` that came back without an engine; `FontChangeFaults` is such a run.

**Wide strings** (`Utf`, `CStrings`, `CommandLine`).  Both encoding forms with strict decoders, inverse in both
directions and tied to the characters by their sorting order, and the two-pass conversion with its unsigned
wrap-around.  `max_size()` and the memory that can be allocated are parameters; an allocation
that fails is an outcome of its own: ill-formed text is meant to give the empty string, and does so except when
the wrapped length is within `max_size()` and cannot be allocated (`LoneSurrogateThrows`).

**Numbers in byte buffers** (`Bits`, `Bytes`, `ByteOrder`, `ByteOrderGeneric`, `ByteOrderX86`, `MyisamOrder`,
`ByteOrderLaws`, `FloatOrder`).  Machine words are natural numbers with explicit wrap-around; shifts, masks and
bitwise operations are defined bit by bit.  The host is little-endian, except in `FloatOrder`, which has all three
kinds of host.

**Buffered files and small inlines** (`IoCache`, `SafeString`, `Uuid`, `Alignment`, `Times`).  The slow paths of
`IO_CACHE` are only declared in the header; the model holds simple ones that keep the contract of its comments,
over a file and a number of disk operations that will still succeed.

Where comment and code disagree the model follows the code: `safe_strcat` returns 1 when nothing is appended to a
string that already fills its buffer, although nothing is truncated (`CatCodeIsTruncationIff`).

## Model

| member | source | states |
|---|---|---|
| Win32Runner.Runner.Destroy | bousselha-flutter/windows/runner/win32_window.cpp:224-234 | from every state the re-entrant call ends and has the one combined effect of `WindowModel.Destroy`: controller dropped, one DestroyWindow call for the handle, handle nulled, class unregistered if the count is zero |
| Win32Runner.Runner.WndProc | bousselha-flutter/windows/runner/win32_window.cpp:157-174 | WM_NCCREATE stores the back pointer and the handle; every other message has the effect the object behind the user data gives it; a dangling back pointer is a fault |
| Win32Runner.Runner.MessageHandler | bousselha-flutter/windows/runner/win32_window.cpp:176-222 | WM_DESTROY nulls the handle before the nested Destroy and posts at most one quit; default handling gets the handle field, not the message's handle |
| Win32Runner.Runner.VirtualMessageHandler | bousselha-flutter/windows/runner/flutter_window.cpp:50-71 | a claimed message has no effect; an unclaimed WM_FONTCHANGE faults exactly without controller or engine; everything else is the base handler's effect |
| Win32Runner.NestedDestroy | bousselha-flutter/windows/runner/win32_window.cpp:182-188 | the nested Destroy neither closes a window nor recurses, so WM_DESTROY has the effect of one shut-down plus at most one quit |
| Win32Runner.Runner.OnDestroy | bousselha-flutter/windows/runner/flutter_window.cpp:42-48 | a held controller is released once and the pointer is null; a second call changes nothing |
| Win32Runner.Runner.OnCreate | bousselha-flutter/windows/runner/flutter_window.cpp:12-40 | a FlutterWindow holds a new controller whatever the result; the result is whether engine and view came up |
| Win32Runner.Runner.Create | bousselha-flutter/windows/runner/win32_window.cpp:123-150 | closes the old window, registers the class if the flag says so, and returns true only with a new window that points back to the object |
| Win32Runner.Runner.GetWindowClass | bousselha-flutter/windows/runner/win32_window.cpp:89-107 | sets the flag whether or not the registration succeeds |
| Win32Runner.Runner.UnregisterWindowClass | bousselha-flutter/windows/runner/win32_window.cpp:109-112 | clears the flag whether or not a window still keeps the class registered |
| Win32Runner.Runner.SetQuitOnClose | bousselha-flutter/windows/runner/win32_window.cpp:262-264 | the field holds the argument afterwards, the other fields of the object are kept, and the state is that of `SetQuitOnCloseEffect` |
| WindowInvariants.SetQuitOnCloseEffect | bousselha-flutter/windows/runner/win32_window.cpp:262-264 | that one field of that one object changes, and nothing else anywhere |
| Win32Runner.Runner.Construct | bousselha-flutter/windows/runner/win32_window.cpp:114-116 | one more object, counted, without window or controller |
| Win32Runner.Runner.Destruct | bousselha-flutter/windows/runner/win32_window.cpp:118-121 | both destructors: controller released, virtual calls back to the base class, count lowered before Destroy, memory released |
| Win32Runner.Runner.DispatchMessage | bousselha-flutter/windows/runner/main.cpp:36-39 | a message from the loop has the effect of `WindowModel.Dispatch` |
| Win32Runner.Runner.Execute | bousselha-flutter/windows/runner/win32_window.cpp:114-239 | the program driven through the steps of any run passes through its states and ends in one that satisfies the invariant |
| WindowInvariants.DestroyEffect | bousselha-flutter/windows/runner/win32_window.cpp:224-234 | Destroy shuts down the object and whoever answers for the window its handle names, and no other object changes |
| WindowInvariants.HandlesKept | bousselha-flutter/windows/runner/win32_window.cpp:157-239 | every step keeps: each OS window points to an existing object that holds its handle; a hosted window has its controller |
| WindowInvariants.ClassKept | bousselha-flutter/windows/runner/win32_window.cpp:89-121 | every step keeps: count equals live objects, registered while a window exists, flag never behind, nothing registered without objects |
| WindowInvariants.SerialsKept | bousselha-flutter/windows/runner/win32_window.cpp:224-234 | every step keeps: the program's DestroyWindow calls hit pairwise different windows, all gone |
| WindowInvariants.ControllersKept | bousselha-flutter/windows/runner/flutter_window.cpp:12-48 | every step keeps: each controller made is held by exactly one object or was released exactly once |
| WindowInvariants.LastDestructorUnregisters | bousselha-flutter/windows/runner/win32_window.cpp:118-121 | the last destructor leaves no window, no registration and a cleared flag |
| WindowRuns.RunInvariant | bousselha-flutter/windows/runner/win32_window.cpp:114-239 | all of the above in every quiescent state of every run |
| WindowRuns.NothingLeaks | bousselha-flutter/windows/runner/win32_window.cpp:114-121 | once all objects are gone, so are all windows, the registration and every controller, each released once |
| WindowRuns.CreateResult | bousselha-flutter/windows/runner/win32_window.cpp:123-150 | Create reports true if and only if a window could be opened and engine and view came up; it leaves the object with an open window, under the handle the OS gave, also when only engine or view failed, and otherwise with a null handle |
| WindowRuns.CreateKeepsRest | bousselha-flutter/windows/runner/win32_window.cpp:123-150 | Create keeps type and quit flag of its object and changes no other object than those Destroy shuts down |
| WindowRuns.ObjectsAsAsked | bousselha-flutter/windows/runner/win32_window.cpp:114-264 | in every state of every run an object is what it was constructed as, and quits on close exactly as its last SetQuitOnClose since construction said |
| WindowRuns.NoStaleHandlesIff | bousselha-flutter/windows/runner/flutter_window.cpp:55-62 | all handles are live and point back in all states of a run if and only if no WM_DESTROY is swallowed |
| WindowRuns.StaleHandleClosesForeignWindow | bousselha-flutter/windows/runner/flutter_window.cpp:55-62 | a concrete run in which a swallowed WM_DESTROY makes one object close another's window |
| WindowRuns.DestroyWindowCalls | bousselha-flutter/windows/runner/win32_window.cpp:227-230 | over any run no OS window is passed to DestroyWindow twice; without swallowed messages every call is for the caller's own live window |
| WindowRuns.RegistrationAgreesIff | bousselha-flutter/windows/runner/win32_window.cpp:89-112 | flag and registration agree in all states of a run if and only if no RegisterClass call fails |
| WindowRuns.BlockedUntilLastObject | bousselha-flutter/windows/runner/win32_window.cpp:89-150 | from a refused RegisterClass on, as long as any object lives, every Create of every object reports false and there is no window, whatever the OS would answer |
| WindowRuns.RefusedRegistration | bousselha-flutter/windows/runner/win32_window.cpp:89-107 | a concrete run that ends with the flag set and nothing registered, and in which a second attempt the OS would accept fails |
| WindowRuns.LastDestructorMidway | bousselha-flutter/windows/runner/win32_window.cpp:224-234 | when the nested Destroy returns, the flag is cleared while window and registration still exist; the outer call unregisters |
| WindowRuns.FaultIff | bousselha-flutter/windows/runner/flutter_window.cpp:64-68 | a run faults if and only if an unclaimed WM_FONTCHANGE meets a controller without engine; a null controller is never met |
| WindowRuns.FontChangeFaults | bousselha-flutter/windows/runner/flutter_window.cpp:24-26 | a concrete run that faults: Create reports false, the window stays open, and a font change reaches it |
| WindowRuns.QuitPosted | bousselha-flutter/windows/runner/win32_window.cpp:182-188 | from every reachable state a step posts exactly one quit if the object that answers its WM_DESTROY quits on close, else none, also when a stale handle closes a foreign window |
| WindowRuns.CloserOwnsWindow | bousselha-flutter/windows/runner/win32_window.cpp:157-188 | the object that answers a WM_DESTROY is always the owner of the window being closed |
| WindowRuns.QuitTotal | bousselha-flutter/windows/runner/win32_window.cpp:182-188 | the quits posted in a run are exactly as many as its steps whose WM_DESTROY is answered by an object last told to quit on close |
| WindowRuns.ClosePostsQuit | bousselha-flutter/windows/runner/win32_window.cpp:182-188 | in any run a close nobody claims removes the window and posts a quit exactly if its object was last told to quit on close |
| WindowRuns.MainWindowQuits | bousselha-flutter/windows/runner/main.cpp:27-39 | the start-up of the program followed by the user closing the window posts one quit and leaves no window |
| Utf.Decode16Encode16 | bousselha-flutter/windows/runner/utils.cpp:48-50 | decoding UTF-16 undoes encoding (section 2 of RFC 2781) |
| Utf.Encode16Decode16 | bousselha-flutter/windows/runner/utils.cpp:48-50 | encoding UTF-16 undoes decoding |
| Utf.Decode16IffWellFormed | bousselha-flutter/windows/runner/utils.cpp:48-50 | the strict decoder accepts exactly the strings whose surrogates are paired |
| Utf.UnitsOrderIff | bousselha-flutter/windows/runner/utils.cpp:48-50 | which pair stands for which character: units sort as characters do, except exactly that U+E000 to U+FFFF sort after pairs |
| Utf.Decode8Encode8 | bousselha-flutter/windows/runner/utils.cpp:58-60 | decoding UTF-8 undoes encoding (section 3 of RFC 3629) |
| Utf.Encode8Decode8 | bousselha-flutter/windows/runner/utils.cpp:58-60 | encoding UTF-8 undoes decoding |
| Utf.Decode8IffValid | bousselha-flutter/windows/runner/utils.cpp:58-60 | the strict decoder accepts exactly the grammar of section 4 of RFC 3629 |
| Utf.Encode8OrderIff | bousselha-flutter/windows/runner/utils.cpp:58-60 | UTF-8 strings sort exactly as their characters do |
| CommandLine.WcsLen | bousselha-flutter/windows/runner/utils.cpp:52 | the length of the text before the first NUL |
| CommandLine.WideCharToMultiByte | bousselha-flutter/windows/runner/utils.cpp:58-60 | 0 for empty or ill-formed input, a negative capacity or a buffer that is too small; otherwise the UTF-8 length, with the bytes written and the rest of the buffer kept |
| CommandLine.TwoPasses | bousselha-flutter/windows/runner/utils.cpp:48-60 | the pass with the terminator converts to one NUL more than the pass without it, or both fail |
| CommandLine.MeasuredLength | bousselha-flutter/windows/runner/utils.cpp:48-51 | the unsigned length is the exact UTF-8 length, or the largest unsigned value for ill-formed text |
| CommandLine.IntRange | bousselha-flutter/windows/runner/utils.cpp:48-60 | conversion of a 32-bit int to unsigned and back is the identity, and INT_MAX separates the signs |
| CommandLine.Utf8FromUtf16 | bousselha-flutter/windows/runner/utils.cpp:44-65 | the result for null, well-formed and ill-formed strings under every max_size and amount of memory |
| CommandLine.Utf8SameText | bousselha-flutter/windows/runner/utils.cpp:44-65 | for well-formed text the result is valid UTF-8, decodes to the same characters, and these re-encode to the text |
| CommandLine.ConversionInjective | bousselha-flutter/windows/runner/utils.cpp:44-65 | different well-formed texts give different bytes |
| CommandLine.ConversionOrderIff | bousselha-flutter/windows/runner/utils.cpp:44-65 | the converted bytes of two texts sort exactly as their characters do |
| CommandLine.WellFormedOutcomeIff | bousselha-flutter/windows/runner/utils.cpp:53-64 | well-formed text gives its bytes, an exception, or the empty string, each with its exact condition on max_size and memory |
| CommandLine.GrinningFace | bousselha-flutter/windows/runner/utils.cpp:44-65 | the pair D83D DE00 becomes F0 9F 98 80 |
| CommandLine.IllFormedIsEmptyIff | bousselha-flutter/windows/runner/utils.cpp:48-64 | ill-formed text gives the empty string if and only if the wrapped length 0xFFFFFFFF exceeds max_size or can be allocated |
| CommandLine.LoneSurrogateThrows | bousselha-flutter/windows/runner/utils.cpp:48-57 | a lone surrogate with a large max_size and little memory gives an exception |
| CommandLine.GetCommandLineArguments | bousselha-flutter/windows/runner/utils.cpp:24-42 | one result per argument after the first, in order; no argument vector gives none; an exception only if some argument's conversion throws |
| ByteOrderGeneric.Uint2Korr | standalone_bundle/mariadb/include/mysql/server/byte_order_generic.h:36-37 | the low-byte-first value of two bytes |
| ByteOrderGeneric.Uint3Korr | standalone_bundle/mariadb/include/mysql/server/byte_order_generic.h:38-40 | the low-byte-first value of three bytes |
| ByteOrderGeneric.Uint4Korr | standalone_bundle/mariadb/include/mysql/server/byte_order_generic.h:41-44 | the low-byte-first value of four bytes |
| ByteOrderGeneric.Uint5Korr | standalone_bundle/mariadb/include/mysql/server/byte_order_generic.h:45-49 | the low-byte-first value of five bytes |
| ByteOrderGeneric.Uint6Korr | standalone_bundle/mariadb/include/mysql/server/byte_order_generic.h:50-55 | the low-byte-first value of six bytes |
| ByteOrderGeneric.Uint8Korr | standalone_bundle/mariadb/include/mysql/server/byte_order_generic.h:56-64 | the low-byte-first value of eight bytes |
| ByteOrderGeneric.Sint2Korr | standalone_bundle/mariadb/include/mysql/server/byte_order_generic.h:21-22 | the two's complement value of two bytes |
| ByteOrderGeneric.Sint3Korr | standalone_bundle/mariadb/include/mysql/server/byte_order_generic.h:23-30 | the two's complement value of three bytes |
| ByteOrderGeneric.Sint4Korr | standalone_bundle/mariadb/include/mysql/server/byte_order_generic.h:31-34 | the two's complement value of four bytes |
| ByteOrderGeneric.Sint8Korr | standalone_bundle/mariadb/include/mysql/server/byte_order_generic.h:35 | the two's complement value of eight bytes |
| ByteOrderGeneric.Int2Store | standalone_bundle/mariadb/include/mysql/server/byte_order_generic.h:65-68 | the low two bytes, low first, and nothing else written |
| ByteOrderGeneric.Int3Store | standalone_bundle/mariadb/include/mysql/server/byte_order_generic.h:69-73 | the low three bytes, low first, and nothing else written |
| ByteOrderGeneric.Int4Store | standalone_bundle/mariadb/include/mysql/server/byte_order_generic.h:74-78 | the low four bytes, low first, and nothing else written |
| ByteOrderGeneric.Int5Store | standalone_bundle/mariadb/include/mysql/server/byte_order_generic.h:79-84 | the low five bytes, low first, and nothing else written |
| ByteOrderGeneric.Int6Store | standalone_bundle/mariadb/include/mysql/server/byte_order_generic.h:85-91 | the low six bytes, low first, and nothing else written |
| ByteOrderGeneric.Int8Store | standalone_bundle/mariadb/include/mysql/server/byte_order_generic.h:92-96 | the low eight bytes, low first, and nothing else written |
| ByteOrderX86.Uint5Korr | standalone_bundle/mariadb/include/mysql/server/byte_order_generic_x86_64.h:38-43 | the wide load gives the low-byte-first value of five bytes |
| ByteOrderX86.Uint6Korr | standalone_bundle/mariadb/include/mysql/server/byte_order_generic_x86_64.h:44-49 | the wide load gives the low-byte-first value of six bytes |
| ByteOrderX86.MiUint5Korr | standalone_bundle/mariadb/include/mysql/server/byte_order_generic_x86_64.h:90-97 | shift and byte swap give the high-byte-first value of five bytes |
| ByteOrderX86.MiUint6Korr | standalone_bundle/mariadb/include/mysql/server/byte_order_generic_x86_64.h:99-106 | shift and byte swap give the high-byte-first value of six bytes |
| ByteOrderX86.MiUint7Korr | standalone_bundle/mariadb/include/mysql/server/byte_order_generic_x86_64.h:108-116 | shift and byte swap give the high-byte-first value of seven bytes |
| ByteOrderX86.MiUint8Korr | standalone_bundle/mariadb/include/mysql/server/byte_order_generic_x86_64.h:118-123 | the byte swap gives the high-byte-first value of eight bytes |
| ByteOrderX86.Int2Store | standalone_bundle/mariadb/include/mysql/server/byte_order_generic_x86_64.h:54-56 | writes the same buffer as the byte-by-byte form |
| ByteOrderX86.Int3Store | standalone_bundle/mariadb/include/mysql/server/byte_order_generic_x86_64.h:58-61 | writes the same buffer as the byte-by-byte form |
| ByteOrderX86.Int4Store | standalone_bundle/mariadb/include/mysql/server/byte_order_generic_x86_64.h:63-65 | writes the same buffer as the byte-by-byte form |
| ByteOrderX86.Int5Store | standalone_bundle/mariadb/include/mysql/server/byte_order_generic_x86_64.h:67-70 | writes the same buffer as the byte-by-byte form |
| ByteOrderX86.Int6Store | standalone_bundle/mariadb/include/mysql/server/byte_order_generic_x86_64.h:72-75 | writes the same buffer as the byte-by-byte form |
| ByteOrderX86.Int8Store | standalone_bundle/mariadb/include/mysql/server/byte_order_generic_x86_64.h:77-79 | writes the same buffer as the byte-by-byte form |
| MyisamOrder.MyisamUint2Korr | standalone_bundle/mariadb/include/mysql/mariadb_rpl.h:569-570 | the high-byte-first value of two bytes |
| MyisamOrder.MyisamSint2Korr | standalone_bundle/mariadb/include/mysql/mariadb_rpl.h:571-572 | its 16-bit two's complement reading |
| MyisamOrder.MyisamUint3Korr | standalone_bundle/mariadb/include/mysql/mariadb_rpl.h:573-576 | the high-byte-first value of three bytes |
| MyisamOrder.MyisamSint3Korr | standalone_bundle/mariadb/include/mysql/mariadb_rpl.h:577-580 | the same unsigned value: the sign is never set |
| MyisamOrder.MyisamUint4Korr | standalone_bundle/mariadb/include/mysql/mariadb_rpl.h:581-585 | the high-byte-first value of four bytes |
| MyisamOrder.MyisamSint4Korr | standalone_bundle/mariadb/include/mysql/mariadb_rpl.h:586-590 | its 32-bit two's complement reading |
| MyisamOrder.MiUint5Korr | standalone_bundle/mariadb/include/mysql/mariadb_rpl.h:591-596 | the high-byte-first value of five bytes |
| Bytes.LoadStored | standalone_bundle/mariadb/include/mysql/server/byte_order_generic.h:36-96 | at every width, loading what was stored gives the value modulo 256^n |
| Bytes.StoreLoaded | standalone_bundle/mariadb/include/mysql/server/byte_order_generic.h:36-96 | at every width, storing what was loaded restores the bytes |
| Bytes.HighFirstOrder | standalone_bundle/mariadb/include/mysql/server/byte_order_generic_x86_64.h:88-123 | at every length, high-byte-first values compare as the byte strings do in dictionary order |
| ByteOrderLaws.LoadsAndStores | standalone_bundle/mariadb/include/mysql/server/byte_order_generic.h:36-96 | both laws for the named readers and the widths 2, 3, 4, 5, 6 and 8 |
| ByteOrderLaws.ReadersAgree | standalone_bundle/mariadb/include/mysql/server/byte_order_generic_x86_64.h:38-123 | wide, swapping and byte-by-byte readers agree on every buffer, also the two of one name |
| ByteOrderLaws.FastReadersKeepOrder | standalone_bundle/mariadb/include/mysql/server/byte_order_generic_x86_64.h:90-123 | the four fast readers compare as dictionary order does |
| ByteOrderLaws.Sint3RoundTripIff | standalone_bundle/mariadb/include/mysql/server/byte_order_generic.h:23-30 | sint3korr undoes int3store exactly on -2^23 to 2^23-1 |
| ByteOrderLaws.Sint3ReadersAgreeIff | standalone_bundle/mariadb/include/mysql/mariadb_rpl.h:573-580 | the two signed three-byte readers agree on reversed bytes exactly when the high byte is below 128 |
| ByteOrderLaws.StoresReadBack | standalone_bundle/mariadb/include/mysql/server/byte_order_generic.h:65-96 | after any list of stores to disjoint places each reads back as if alone |
| ByteOrderLaws.StoreAllElsewhere | standalone_bundle/mariadb/include/mysql/server/byte_order_generic.h:65-96 | bytes no store covers keep their value |
| ByteOrderLaws.PerformStores | standalone_bundle/mariadb/include/mysql/server/byte_order_generic_x86_64.h:54-79 | a list of stores with the macros of either header leaves the same buffer |
| FloatOrder.Float4StoreBig | standalone_bundle/mariadb/include/mysql/server/big_endian.h:19-22 | the four bytes of the value in the order the macro copies them, and nothing else written |
| FloatOrder.Float4StoreLittle | standalone_bundle/mariadb/include/mysql/server/little_endian.h:22 | the four bytes as they are, and nothing else written |
| FloatOrder.Float8StoreBig | standalone_bundle/mariadb/include/mysql/server/big_endian.h:31-38 | the eight bytes in the order the macro copies them, and nothing else written |
| FloatOrder.DoubleStoreMixed | standalone_bundle/mariadb/include/mysql/server/little_endian.h:28-36 | the eight bytes with the two words exchanged, and nothing else written |
| FloatOrder.DoubleStoreLittle | standalone_bundle/mariadb/include/mysql/server/little_endian.h:50 | the eight bytes as they are, and nothing else written |
| FloatOrder.OneWireImage | standalone_bundle/mariadb/include/mysql/server/little_endian.h:20-55 | on every kind of host, the bytes the store copies from the host's image of a value are that value's bytes, least significant first |
| FloatOrder.ImageValue | standalone_bundle/mariadb/include/mysql/server/little_endian.h:26-50 | the number a host reads from its image in its own order is the number the least-significant-first bytes spell; the mixed host keeps the high word first |
| FloatOrder.GetGivesImage | standalone_bundle/mariadb/include/mysql/server/big_endian.h:24-49 | on every kind of host, the bytes the get copies are the host's image of the value in the buffer |
| FloatOrder.StoreFloat | standalone_bundle/mariadb/include/mysql/server/little_endian.h:21-24 | float4store applied to its host's image of a value writes the value least significant byte first |
| FloatOrder.StoreDouble | standalone_bundle/mariadb/include/mysql/server/little_endian.h:23-51 | float8store applied to its host's image of a value writes the value least significant byte first |
| FloatOrder.GetFloat | standalone_bundle/mariadb/include/mysql/server/big_endian.h:24-29 | float4get gives the host its image of the four bytes |
| FloatOrder.GetDouble | standalone_bundle/mariadb/include/mysql/server/little_endian.h:37-46 | float8get gives the host its image of the eight bytes |
| FloatOrder.TransferFloat | standalone_bundle/mariadb/include/mysql/server/big_endian.h:19-29 | a float stored on any host and fetched on any other is the same value there |
| FloatOrder.TransferDouble | standalone_bundle/mariadb/include/mysql/server/little_endian.h:28-51 | a double stored on any host and fetched on any other is the same value there |
| IoCache.IoCache.Write | standalone_bundle/mariadb/include/mysql/server/my_sys.h:521-534 | 0 exactly when all bytes are accepted, otherwise a proper prefix is; position and contents advance by what was accepted; with room in the cache it returns 0, takes that much room and keeps disk and error; otherwise it returns 0 exactly if the disk allows the one or two operations it needs |
| IoCache.IoCache.WriteByte | standalone_bundle/mariadb/include/mysql/server/my_sys.h:546-554 | with room in the cache the byte is accepted, one byte of room taken, disk and error kept; with a full buffer it is accepted exactly if the disk allows the flush, and otherwise nothing changes and error is -1 |
| IoCache.IoCache.Flush | standalone_bundle/mariadb/include/mysql/server/my_sys.h:467-500 | fails exactly if the disk does, with error -1 and the file as it was; otherwise error is 0, the file holds the contents and the whole buffer is free; position and contents stay the same |
| IoCache.IoCache.SlowWrite | standalone_bundle/mariadb/include/mysql/server/my_sys.h:443-473 | fill, flush, direct whole buffers, rest: 0 and error 0 exactly if the disk allows one operation, or two when a whole buffer is left over; otherwise error -1 and a proper prefix accepted |
| IoCache.IoCache.WriteAll | standalone_bundle/mariadb/include/mysql/server/my_sys.h:521-584 | any list of writes that all return 0 is one write of all bytes in order; a write that does not means the disk failed with error -1, and a prefix of the bytes was accepted |
| IoCache.OverlayTwice | standalone_bundle/mariadb/include/mysql/server/my_sys.h:521-534 | two writes in a row are one write of the concatenation |
| IoCache.OverlayIs | standalone_bundle/mariadb/include/mysql/server/my_sys.h:521-534 | a write keeps what stands before and after its range and puts its bytes there |
| IoCache.OverlayAtEnd | standalone_bundle/mariadb/include/mysql/server/my_sys.h:521-534 | at the end of the file a write appends |
| IoCache.IoCache.Read | standalone_bundle/mariadb/include/mysql/server/my_sys.h:467-519 | with enough bytes in the cache, delivers them, returns 0 and keeps error and disk; otherwise delivers the next bytes of the file with error 0, or fails with error -1 exactly on a disk error, or with the number of bytes up to the end of the file |
| IoCache.IoCache.SlowRead | standalone_bundle/mariadb/include/mysql/server/my_sys.h:434-473 | result, error value, position and bytes in each of the three outcomes, each with its exact condition, and a full fresh buffer on success |
| IoCache.IoCache.Get | standalone_bundle/mariadb/include/mysql/server/my_sys.h:508-544 | the next byte of the file, or INT_MIN exactly when the buffer is used up and the file ends or the disk fails; error is kept with a byte in the cache, and otherwise 0, or -1 exactly on a disk error |
| IoCache.IoCache.Fill | standalone_bundle/mariadb/include/mysql/server/my_sys.h:556-570 | skips what is buffered; the number of bytes ready, as many as buffer and file allow, 0 exactly on error or at the end of the file; error is -1 exactly on error and 0 otherwise |
| IoCache.IoCache.ReadAll | standalone_bundle/mariadb/include/mysql/server/my_sys.h:510-519 | any list of reads delivers consecutive bytes of the file, whatever the buffer size; a read that fails means the disk failed or the file ended |
| IoCache.GetsAreRead | standalone_bundle/mariadb/include/mysql/server/my_sys.h:536-544 | n fast gets return the bytes and leave the state of one fast read of n |
| IoCache.ReadsAreOneRead | standalone_bundle/mariadb/include/mysql/server/my_sys.h:572-607 | any run of fast reads is one read of their total; tell plus cached bytes stays position in file plus bytes in buffer |
| IoCache.IoCache.ViewAgrees | standalone_bundle/mariadb/include/mysql/server/my_sys.h:572-607 | tell and bytes in cache of the fast-path view are those of the cache |
| SafeString.SafeStrCpy | standalone_bundle/mariadb/include/mysql/server/m_string.h:251-282 | the clipped string padded with zeros to the size given, 1 exactly when clipped, nothing outside written |
| SafeString.CopiedText | standalone_bundle/mariadb/include/mysql/server/m_string.h:243-282 | what is left is always terminated and reads as the first size-1 characters of the source |
| SafeString.SafeStrCat | standalone_bundle/mariadb/include/mysql/server/m_string.h:293-299 | for every size given, also one below the string's length: the memory of `Catted`, and 0 exactly when the old text left room and all of the source stands behind it now, else 1 |
| SafeString.CattedIs | standalone_bundle/mariadb/include/mysql/server/m_string.h:284-299 | that memory is terminated and holds the first size-1 characters of the concatenation, zeros from there up to the size, and what it held beyond; a string that already fills the size stays |
| SafeString.CatAll | standalone_bundle/mariadb/include/mysql/server/m_string.h:293-299 | after any list of calls the content is the first size-1 characters of everything appended, nothing beyond the size is written, and the codes are those of each call |
| SafeString.CodesStay | standalone_bundle/mariadb/include/mysql/server/m_string.h:284-299 | once a call has returned 1, all later ones do |
| SafeString.CatCodeIsTruncationIff | standalone_bundle/mariadb/include/mysql/server/m_string.h:284-299 | the code reports truncation as documented except exactly when nothing is appended to a full string |
| Uuid.Uuid2Str | standalone_bundle/mariadb/include/mysql/server/my_sys.h:1065-1076 | the shifted-mask loop writes the printed text and nothing beyond it |
| Uuid.PrintedAt | standalone_bundle/mariadb/include/mysql/server/my_sys.h:1065-1076 | that text holds each byte as two digits, the high one first, at its column of the 8-4-4-4-12 grouping, and dashes at 8, 13, 18 and 23 and nowhere else |
| Uuid.BareAt | standalone_bundle/mariadb/include/mysql/server/my_sys.h:1065-1076 | without separators each byte is two digits, the high one first, at twice its index |
| Uuid.UuidLengths | standalone_bundle/mariadb/include/mysql/server/my_sys.h:1056-1059 | 36 characters with separators, 32 without |
| Uuid.DashesDeleted | standalone_bundle/mariadb/include/mysql/server/my_sys.h:1065-1076 | deleting the dashes gives the bare form |
| Uuid.ParsePrinted | standalone_bundle/mariadb/include/mysql/server/my_sys.h:1065-1076 | a parser recovers the bytes from either form |
| Uuid.PrintParsed | standalone_bundle/mariadb/include/mysql/server/my_sys.h:1065-1076 | only the printed text parses to those bytes |
| Alignment.AlignIsLeastIff | standalone_bundle/mariadb/include/mysql/server/my_global.h:830 | the mask form is the least multiple at or above exactly when the addition stays below 2^n, for n ones in the mask: the word's width, or the width of a narrower unsigned L |
| Alignment.AlignOverflows | standalone_bundle/mariadb/include/mysql/server/my_global.h:830 | with a full mask, an addition that overflows gives 0 |
| Alignment.AlignDownIsGreatestIff | standalone_bundle/mariadb/include/mysql/server/my_global.h:831 | the greatest multiple at or below exactly when the address fits the mask |
| Alignment.AlignIdempotent | standalone_bundle/mariadb/include/mysql/server/my_global.h:830-831 | applying either macro to a result of either macro changes nothing, for every address, also after an overflow |
| Alignment.AlignMonotone | standalone_bundle/mariadb/include/mysql/server/my_global.h:830-831 | both macros keep the order of addresses, MY_ALIGN as long as the larger one does not overflow |
| Times.SetTimespecTimeNsec | standalone_bundle/mariadb/include/mysql/server/my_pthread.h:350-354 | seconds times 10^9 plus nanoseconds below 10^9 are the 64-bit count |
| Times.CmpOfSplit | standalone_bundle/mariadb/include/mysql/server/my_pthread.h:342-354 | comparing two split counts gives the sign of their difference |
| Times.HrTimeRoundTripIff | standalone_bundle/mariadb/include/mysql/server/my_sys.h:961-990 | make_hr_time is time times 10^6 plus part as long as that fits; the extractors undo it exactly for non-negative times that fit with a part below a second |
| Times.HrTimeFits | standalone_bundle/mariadb/include/mysql/server/my_sys.h:975-978 | the extracted seconds times 10^6 plus the extracted part, below 10^6, are the value |

## Left out

- The Spring backend and the Dart user interface.
- Headers that only declare functions: JSON, decimals, key cache, dynamic columns, length-encoded integers, lists and memory roots.
- The reader-preferring lock of `my_pthread.h`, of which only the struct and a comment exist.
- Painting, scaling, theme lookup, focus, `child_content_` and its resizing, the frame callback, console attachment and plugin registration; the lazily made registrar is a field.
- Operating-system rules taken as given: `CreateWindow` delivers `WM_NCCREATE` only if it succeeds, `DestroyWindow` on a live window delivers `WM_DESTROY` and removes it, `UnregisterClass` fails while a window exists, and plugins do not call back into the window while they look at a message.
- `WM_DESTROY` and `WM_NCCREATE` reach a window only from `DestroyWindow` and `CreateWindow`: a program that posts or sends them itself is not modelled, and `WM_NCDESTROY`, which the code does not handle, is left out.
- Runner: undefined behaviour is recorded as a fault and the run goes on as if the faulting statement had not been there.
- Utf8FromUtf16: strings whose length or converted length does not fit an int are excluded, because the conversion call gives no result for them.
- SlowWrite, SlowRead, Flush: reference implementations without alignment of the buffer to disk blocks, encryption, sharing, asynchronous input and output or SEQ_READ_APPEND caches.
- The remaining wide loads of `byte_order_generic_x86_64.h` (lines 21-35 and 51-52), which are a host load by definition or the text of the byte-by-byte macro, and the 32-bit variant of that header.
- The macros of `big_endian.h` and `little_endian.h` that copy in host order (`longget`, `floatstore` and their like); floating-point arithmetic.
- One-byte readers of `mariadb_rpl.h`, pointer alignment, aliasing and undefined signed shifts.
