# In-kernel chat message bus, modelled in Dafny

The repository holds several versions of a Linux character device that
passes chat messages between processes, together with the user-space
senders that feed it. This project models their logic as pure functions
on immutable state. Each device operation is one atomic transition that
returns the system call's result and the new state.

- **Wraparound device** (`RingDevice`, with the queue in `Ring`). Used by
  the semaphore version and the spinlock version
  (yms/my_chat_device/ch_device.c:99-230), whose logic is the same. The
  table cites the semaphore version.
  - It has 64 message slots, a write position `tail`, and up to 6 users.
    Each user has a `(pid, head, count)` entry.
  - `open` registers the caller.
  - `write` routes an optional `@<pid>` prefix (`AtPrefix`). It stores the
    content, cut to 255 chars, at `tail`, then moves `tail` on modulo 64.
  - `read` visits exactly one slot at the caller's cursor.
- **Count-based device** (`CountDevice`).
  - Users register through an ioctl, up to 16 of them.
  - `read` concatenates the caller's messages while its `count` field is
    positive. It returns `-EAGAIN` when it has nothing.
- **Linear-buffer device** (`LinearDevice`).
  - It has 32 slots, filled in order.
  - `read` hands over the longest run of the caller's texts, in slot
    order, that fits, then empties the buffer.
  - It has an ioctl user table.
- **Senders.**
  - `FanOut` models `send_message` of the menu client: a typed line
    becomes one private record or one record per other child process. It
    also models `send_sig` and `read_sig`.
  - `TestSender` models `find_user_by_pid` and `send_message` of the test
    client.
  - `Session` joins the fan-out to the linear device and shows what a
    reader receives.
- **Helpers.**
  - `CString`: C strings, `strncpy` and `strchr`.
  - `Decimal`: `simple_strtol` in base 10, ISO C `atoi` (section 7.22.1.2
    of ISO/IEC 9899:2011), and the 32-bit `pid_t` store.
  - `Lookup`, `Errno` and `ChatCodes`: the table lookup and the shared
    constants.

## Modelling choices

- **Caller pid.** The calling process's pid is a parameter. The
  wraparound and count-based devices look the reader up as `pid - 1`. The
  wraparound device also records `pid - 1` as the sender, while the
  count-based device records `pid`. The linear device uses `pid` itself.
  Each variant is modelled as it is written.
- **Parsing and integer width.**
  - `simple_strtol` yields the mathematical value of an optional `-` and
    the digit run after it. Storing it into a `pid_t` wraps modulo 2^32
    (`Decimal.ToInt32`).
  - An `@` followed directly by a space or the end names no digits. The
    code accepts it as a broadcast, because `simple_strtol` yields 0 and
    stops at that character (`AtPrefix.RouteBareAt`).
  - The pid that follows `@` is parsed from the payload itself.
- **`memmove` past the terminator.** A payload that ends right after
  `@<digits>` makes `memmove` copy from one byte past the terminator. The
  stored content is then the `stale` parameter, which stands for that
  memory.
- **Registration.** Registration starts a new cursor at 0, not at
  `tail`, and it does not reject a duplicate pid. A second entry for a pid
  is never found by the lookup (`RingDevice.OpenDuplicateShadowed`). The
  history replay that the start at 0 causes is listed under Findings.
- **Unwritten memory.** The wraparound device's slots start with whatever
  the allocator left in them (`RingDevice.Init` takes them as a
  parameter).
- **Parameters for values the code never sets.**
  - The menu client's `sscanf` may store no word. The buffer that `atoi`
    then reads is the `staleTarget` parameter.
  - The test client passes a NULL account table (`all_user`) to the
    `READ_ACCOUNT_INF` ioctl of the linear device. There `copy_to_user` to
    NULL fails whenever a user is registered and gives `COPY_ERR`, and with
    no user the ioctl returns 0. Either way, as written, every
    `send_message` returns `SEND_ERR` before it reads a line. The contract
    clause `ret == COPY_ERR || ret == 0 ==> r == Sent(SEND_ERR, [])` of
    `TestSender.SendMessage` covers exactly this. The ioctl result is a
    parameter, and so is the table. The table stands for a client whose
    table has been filled. The client never initialises its count
    (`user_count`) or the buffer it passes to `atoi`, and these are
    parameters too.
- **Two ways to skip the sender.** The two senders skip the sender
  differently. The menu client skips every entry equal to its own pid.
  The test client skips the source's table index only.
- **Blocking.** The linear device's wait for a non-empty buffer is the
  `Blocked` outcome of `LinearDevice.Delivery`.

## Model

| member | source | states |
|---|---|---|
| Decimal.StrTol | yms/succeed_version_sem/chat_device.c:226 | an optional `-` and then the maximal digit run are read; the stop index is right after the run, and a non-digit or the end is found there |
| Decimal.StrTolRoundTrip | yms/succeed_version_sem/chat_device.c:226-227 | a printed pid followed by a non-digit reads back as that pid, and `endptr` stops right after its digits |
| Decimal.Atoi | yms/chracter_device_chat/chat_by_chat_new.c:210 | a token that starts with anything but white space, a sign or a digit gives 0, and so does a blank one |
| Decimal.AtoiValue | yms/chracter_device_chat/chat_by_chat_new.c:210 | past the leading white space, `atoi` gives the value of the maximal digit run, negated after a `-` and unchanged after a `+` |
| Decimal.AtoiSkipsSpace | yms/chracter_device_chat/chat_by_chat_new.c:210 | leading white space does not change what `atoi` reads |
| Decimal.AtoiCut | yms/chracter_device_chat/chat_by_chat_new.c:209-210 | cutting a token at white space does not change what `atoi` reads |
| Decimal.AtoiRoundTrip | yms/chracter_device_chat/chat_by_chat_new.c:209-210 | `atoi` reads back a printed number followed by any non-digit, plain, after `-` (negated), after `+`, or after white space |
| Decimal.ToInt32 | yms/succeed_version_sem/chat_device.c:226 | the value a `pid_t` holds after the assignment is in the 32-bit range and congruent modulo 2^32 |
| Decimal.ToInt32Identity | yms/final_chat_program/my_chat_device.c:184 | a value already in the 32-bit range is stored unchanged |
| CString.Truncate | yms/chat/ch_device_chat.c:124-125 | `strncpy` and the terminator store keep at most `n` chars, which are a prefix of the source's C string, and all of it when it fits |
| CString.TruncateShort | yms/chat/ch_device_chat.c:124-125 | a NUL-free string that fits is copied unchanged |
| CString.PaddedRoundTrip | yms/succeed_version_sem/chat_device.c:235-236 | the padded content array reads back as the stored string |
| CString.CStr | yms/final_chat_program/my_chat_device.c:129 | the C string of an array is a NUL-free prefix of it, and it ends at the first NUL or at the array's end |
| CString.CStrStopsAtNul | yms/final_chat_program/my_chat_device.c:129 | `strlen` stops at the first NUL and ignores what follows it |
| CString.StrChr | yms/chracter_device_chat/chat_by_chat_new.c:215 | `strchr` finds the first occurrence of the char, or reports that there is none |
| CString.CutAtNewline | yms/chracter_device_chat/chat_by_chat_new.c:202 | the newline strip keeps exactly the text before the first newline |
| Lookup.IndexOf | yms/succeed_version_sem/chracter_device_chat/ch_test_chat.c:84-94 | the lowest index that holds the pid, or -1 exactly when the pid is absent |
| AtPrefix.EndPtr | yms/succeed_version_sem/chat_device.c:225-226 | `endptr` stops after the `@`, an optional `-` and a run of digits, at the end or at a non-digit |
| AtPrefix.RoutePayload | yms/succeed_version_sem/chat_device.c:219-233 | a payload without `@` is a broadcast of the whole text; with `@`, it is rejected exactly when the char after the digit run is neither a space nor the end; otherwise the target is the parsed pid and the content is what follows the space |
| AtPrefix.RoutePrivateRoundTrip | yms/succeed_version_sem/chat_device.c:223-233 | routing `@<pid> <content>` gives back exactly that pid and content, for every pid a `pid_t` holds |
| AtPrefix.RouteRejectsGlued | yms/succeed_version_sem/chat_device.c:227-230 | digits glued to another char are rejected, and so is a non-digit right after `@` |
| AtPrefix.RouteBareAt | yms/succeed_version_sem/chat_device.c:226-232 | an `@` with no digits before a space or the end is accepted as a broadcast |
| Ring.Find | yms/succeed_version_sem/chat_device.c:147-155 | the lookup finds the first entry with the pid, or -1 exactly when none has it |
| Ring.Pending | yms/succeed_version_sem/chat_device.c:163 | the pending distance lies in [0,63], and moving the cursor that far forward reaches `tail` |
| Ring.Append | yms/succeed_version_sem/chat_device.c:240-241 | the slot write overwrites slot `tail` only, moves `tail` on modulo 64, and moves every reader's pending distance on by one modulo 64 |
| Ring.PendingAfterAppends | yms/succeed_version_sem/chat_device.c:240-241 | after `n` writes with no read, each reader's pending distance has grown by `n` modulo 64 |
| Ring.SixtyFourWritesAreLost | yms/succeed_version_sem/chat_device.c:241 | after 64 writes, a reader that was up to date has nothing pending, so all 64 messages are lost to it |
| Ring.CopySize | yms/succeed_version_sem/chat_device.c:212 | the copy takes `size` bytes, but never more than 255 |
| Ring.Payload | yms/succeed_version_sem/chat_device.c:212-216 | the text in `temp` is the copied bytes up to the first NUL: a NUL-free prefix of the caller's buffer, no longer than the copy |
| Ring.StoredText | yms/succeed_version_sem/chat_device.c:235-236 | the content array has 256 chars, ends in NUL, reads back as the content cut to 255 chars, and is NUL from the end of that text onwards |
| Ring.Store | yms/succeed_version_sem/chat_device.c:235-241 | only slot `tail` changes; it receives the sender, the target and the content cut to 255 chars; `tail` moves on modulo 64 |
| RingDevice.Init | yms/succeed_version_sem/chat_device.c:87-88 | the device starts with `tail == 0` and no users |
| RingDevice.Open | yms/succeed_version_sem/chat_device.c:107-131 | a full table gives `-ENOMEM` and no change; otherwise exactly one entry `(pid, 0, tail)` is appended and earlier entries are kept |
| RingDevice.OpenPendsHistory | yms/succeed_version_sem/chat_device.c:121-124 | a new reader starts with `tail` slots pending |
| RingDevice.OpenDuplicateShadowed | yms/succeed_version_sem/chat_device.c:121-124 | registering a pid twice leaves the lookup on the first entry |
| RingDevice.OpenReplaysHistory | yms/succeed_version_sem/chat_device.c:122 | as written, a new reader's first read visits slot 0, which was written before it registered, and delivers that slot when it is meant for the reader |
| RingDevice.OpenAtTail | yms/succeed_version_sem/chat_device.c:107-131 | the corrected registration: the cursor starts at `tail`, so nothing is pending |
| RingDevice.OpenAtTailSkipsHistory | yms/succeed_version_sem/chat_device.c:107-131 | with the corrected registration, the reader is found at the new entry and its first read returns 0 |
| RingDevice.OpenAtTailSeesNext | yms/succeed_version_sem/chat_device.c:202-245 | with the corrected registration, the first successful write after `open` is what the reader's next read visits: it delivers that slot's content when the slot is meant for the reader, and returns 0 otherwise |
| RingDevice.Read | yms/succeed_version_sem/chat_device.c:133-161 | an unregistered `pid - 1` gets 0 and nothing changes; a registered one is visited |
| RingDevice.Visit | yms/succeed_version_sem/chat_device.c:163-170 | `count` becomes the pending distance; with nothing pending the read returns 0 and `head` stays put |
| RingDevice.Step | yms/succeed_version_sem/chat_device.c:172-198 | `head` moves on by exactly one slot, and no other cursor moves; one fewer slot is pending; a slot meant for the reader yields `min(size, 256)` bytes of it, any other slot yields 0 |
| RingDevice.Write | yms/succeed_version_sem/chat_device.c:202-245 | a size over 256 or a malformed `@` gives `-EINVAL`, and a short buffer gives `-EFAULT`; these leave the queue unchanged; a success returns `size`, overwrites slot `tail` only, with the routed target and the content cut to 255 chars, and moves `tail` on |
| RingDevice.ReadAfterOneWrite | yms/succeed_version_sem/chat_device.c:172-198 | a reader at the old `tail` visits the freshly written slot next |
| RingDevice.WriteStores | yms/succeed_version_sem/chat_device.c:209-244 | a short payload that routes successfully is stored at `tail` with its target and content |
| RingDevice.PrivateRoundTrip | yms/succeed_version_sem/chat_device.c:223-244 | `@<pid> <content>` reaches reader `pid` with its content, and another reader gets 0 |
| RingDevice.BroadcastRoundTrip | yms/succeed_version_sem/chat_device.c:220-244 | a payload without `@` reaches every registered reader at `tail` |
| RingDevice.DeliveredOnce | yms/succeed_version_sem/chat_device.c:163-183 | a read with slots pending keeps the reader's entry, shortens its pending window by one, and leaves the visited slot outside the new window, so it is not visited again until `tail` wraps past it; with one slot pending, the next read returns 0 |
| CountDevice.Init | yms/final_chat_program/my_chat_device.c:70-71 | the statically zeroed queue, with `tail == 0` and no users, is a reachable state |
| CountDevice.Ioctl | yms/final_chat_program/my_chat_device.c:220-252 | `BUILD_ACCOUNT` on a full table gives `-ENOMEM`; otherwise it appends `(pid, 0, 0)` and returns 0; any other command returns `IINS` and changes nothing |
| CountDevice.ScanFrom | yms/final_chat_program/my_chat_device.c:122-147 | the read loop visits at most `count` slots, none when `count` is not positive, and gathers at most `len` bytes |
| CountDevice.ScanMeaning | yms/final_chat_program/my_chat_device.c:122-147 | the loop gathers, in slot order, exactly the texts meant for the reader in the slots it visits, and stops early only when `len` is reached or the next text for the reader would not fit |
| CountDevice.ScanGathers | yms/final_chat_program/my_chat_device.c:124-146 | the gathered bytes are the reader's texts from the visited window |
| CountDevice.ScanStops | yms/final_chat_program/my_chat_device.c:122-133 | an early stop happens only when the buffer is full or the next text for the reader overflows it |
| CountDevice.Drain | yms/final_chat_program/my_chat_device.c:122-150 | the cursor moves on by the number of visited slots, and `count` drops by the same number; the data has at most `len` bytes; the result is its length, or `-EAGAIN` with no data |
| CountDevice.Read | yms/final_chat_program/my_chat_device.c:91-151 | an unregistered `pid - 1` gets `-EINVAL` and nothing changes; reachable states stay reachable |
| CountDevice.Write | yms/final_chat_program/my_chat_device.c:153-218 | a length over 256 or a malformed `@` gives `-EINVAL`, and a short buffer gives `-EFAULT`, with no change; the queue-full branch is never taken; a success stores the routed message at `tail` and returns `len` |
| CountDevice.RegisteredReadNeverDelivers | yms/final_chat_program/my_chat_device.c:122-150 | as written, every registered reader gets `-EAGAIN` and the queue is unchanged |
| CountDevice.ReadPending | yms/final_chat_program/my_chat_device.c:91-151 | the corrected read, which first sets `count` to the pending distance: other readers' entries and the reader's pid are unchanged; the cursor moves forward without passing `tail`, and the data is the reader's texts from exactly the slots it passed, at most `len` bytes; the result is the data's length, or `-EAGAIN` with no data; the loop stops early only on a full buffer or at a text for the reader that does not fit; an unregistered caller gets `-EINVAL` |
| CountDevice.PendingAfterMoving | yms/final_chat_program/my_chat_device.c:145-146 | moving the cursor `k` slots, without passing `tail`, leaves `k` fewer slots pending |
| CountDevice.ReadPendingDelivers | yms/final_chat_program/my_chat_device.c:122-143 | with the corrected read, a pending message for the reader that fits comes first in the data |
| LinearDevice.Init | yms/chat/ch_device_chat.c:38-41 | the device starts empty, with no users |
| LinearDevice.Write | yms/chat/ch_device_chat.c:108-135 | a full buffer gives -1 and no change; otherwise the record is stored at `buffer_index` with its text cut to 255 chars, other slots are kept, and the index grows by one |
| LinearDevice.Delivery | yms/chat/ch_device_chat.c:73-106 | an empty buffer blocks; otherwise the data has at most `len` bytes, the result is its length, and the buffer is emptied |
| LinearDevice.Read | yms/chat/ch_device_chat.c:89-105 | the slot loop with its `break` delivers exactly `Delivery`: the longest run of the reader's texts, in slot order, that fits |
| LinearDevice.Fill | yms/chat/ch_device_chat.c:89-102 | the number of texts delivered is at most the number available, and their concatenation fits in `len` |
| LinearDevice.FillIsLongest | yms/chat/ch_device_chat.c:89-102 | the delivered texts fit in `len`, and one more would not |
| LinearDevice.FillStops | yms/chat/ch_device_chat.c:93-95 | the `break` is taken exactly where the longest fitting run ends |
| LinearDevice.Ioctl | yms/chat/ch_device_chat.c:137-156 | `BUILD_ACCOUNT` appends the pid and returns 0; `READ_ACCOUNT_INF` returns the user count and the table; other commands return -3; the buffer is untouched |
| LinearDevice.WriteAll | yms/chat/ch_device_chat.c:117-127 | successive writes fill slots until the index reaches 32 and stays there |
| LinearDevice.WriteThenRead | yms/chat/ch_device_chat.c:89-103 | a write into an empty buffer followed by a read hands the addressee the text cut to 255 chars, and anyone else nothing |
| LinearDevice.DeliveryOfOne | yms/chat/ch_device_chat.c:89-103 | with one record buffered, the reader gets its text exactly when the record is meant for it |
| LinearDevice.ReadDiscardsRest | yms/chat/ch_device_chat.c:103 | after a read the buffer is empty, so undelivered messages are gone and the next read waits |
| FanOut.Line | yms/chracter_device_chat/chat_by_chat_new.c:201-202 | the line has at most 255 chars and holds no newline or NUL; it is a prefix of the input that ends at a newline, a NUL, the end, or the size limit |
| FanOut.LineOfTerminated | yms/chracter_device_chat/chat_by_chat_new.c:201-202 | a line typed with its newline reads back as itself |
| FanOut.ScanWord | yms/chracter_device_chat/chat_by_chat_new.c:209 | `%s` stores no word exactly on blank input; otherwise it stores the first word: the non-empty run of non-space chars after the leading white space, ending at white space or the end |
| FanOut.PrivateTarget | yms/chracter_device_chat/chat_by_chat_new.c:209-210 | when the text after `@` is blank, `sscanf` stores nothing and the target is the unwritten buffer's `staleTarget`; otherwise the target is `atoi` of the text after `@` |
| FanOut.WordAtoi | yms/chracter_device_chat/chat_by_chat_new.c:209-210 | `atoi` of the first word that `sscanf` stores equals `atoi` of the whole text |
| FanOut.PrivateText | yms/chracter_device_chat/chat_by_chat_new.c:215-225 | the content is the text after the first space, or empty when the line has none |
| FanOut.Broadcast | yms/chracter_device_chat/chat_by_chat_new.c:242-259 | every record goes to a table entry other than the sender, carrying the line cut to 255 chars |
| FanOut.BroadcastCounts | yms/chracter_device_chat/chat_by_chat_new.c:242-246 | each other pid gets as many records as it occurs in the table, and the sender gets none |
| FanOut.BroadcastSplits | yms/chracter_device_chat/chat_by_chat_new.c:242-259 | the records keep table order |
| FanOut.SendMessage | yms/chracter_device_chat/chat_by_chat_new.c:190-261 | a line starting with `@` yields exactly one record, to the `atoi` target, carrying the private text; any other line yields the broadcast; no record text has a newline or NUL |
| FanOut.PrivateRoundTrip | yms/chracter_device_chat/chat_by_chat_new.c:201-225 | `@<pid> <text>` followed by a newline yields the single record `(pid, text)` |
| FanOut.PrivateLineParts | yms/chracter_device_chat/chat_by_chat_new.c:205-225 | `@<pid> <text>` names `pid` and carries `text` |
| FanOut.IsRegistered | yms/chracter_device_chat/chat_by_chat_new.c:153-158 | the membership loop finds the pid exactly when the pid is in the table |
| FanOut.SendSig | yms/chracter_device_chat/chat_by_chat_new.c:145-165 | `SIGUSR1` goes to the pid exactly when it is a child in the table; otherwise nothing is sent |
| FanOut.ReadSig | yms/chracter_device_chat/chat_by_chat_new.c:167-188 | `SIGUSR2` goes to the pid exactly when it is a child in the table; otherwise nothing is sent |
| TestSender.FindUserByPid | yms/succeed_version_sem/chracter_device_chat/ch_test_chat.c:84-94 | -1 exactly when no entry among the first `user_count` has the pid; otherwise the lowest index in range that holds it |
| TestSender.SendMessage | yms/succeed_version_sem/chracter_device_chat/ch_test_chat.c:96-206 | a copy error, an empty table or an unknown source gives `SEND_ERR` with no record, whatever the input; once a line is read, a private line succeeds exactly when its target is registered, and then writes one record; a broadcast writes one record per other index, to that user's pid, in table order |
| Session.WriteAllStores | yms/chat/ch_device_chat.c:117-127 | writes that fit land in consecutive slots, each text cut to 255 chars |
| Session.StoredShort | yms/chat/ch_device_chat.c:124-125 | records whose texts already fit are stored unchanged |
| Session.TextsOfBroadcast | yms/chracter_device_chat/chat_by_chat_new.c:242-259 | over a table of distinct pids, a reader has one copy of the line when it is another user, and none otherwise |
| Session.BroadcastLands | yms/chat/ch_device_chat.c:117-127 | a broadcast written into an empty device occupies exactly its own slots |
| Session.DeliveryOfTexts | yms/chat/ch_device_chat.c:89-105 | when at most one text is meant for the reader and it fits, the read delivers exactly that text |
| Session.BroadcastReachesOthers | yms/chracter_device_chat/chat_by_chat_new.c:238-260 | a typed broadcast reaches every other registered user once, and reaches the sender not at all |

## Left out

- Module glue is not modelled because it holds no chat logic. This covers
  `register_chrdev`, `unregister_chrdev`, `kmalloc`/`kfree` of the queue,
  the `file_operations` tables, and `module_init`/`module_exit`.
- Semaphores, spinlocks and wait queues are not modelled: every operation
  is one atomic step. `-ERESTARTSYS` from an interrupted wait is left out,
  as is the wake-up.
- The following concurrency defects are noted but not modelled:
  - the spinlock version's `open` returns on a full table without
    releasing its lock (yms/my_chat_device/ch_device.c:105);
  - the count-based ioctl runs without the lock
    (yms/final_chat_program/my_chat_device.c:220-247);
  - the linear read re-checks the emptiness condition outside the
    semaphore (yms/chat/ch_device_chat.c:81-87).
- `copy_to_user` faults on read (`-EFAULT`, and `COPY_ERR` in the linear
  ioctl) are foreign calls and are left out. On write, `copy_from_user` is
  modelled as failing exactly when the caller's buffer is shorter than the
  copy.
- The ioctls' `kmalloc` failure and `copy_from_user` fault are foreign
  calls and are left out.
- LinearDevice.Ioctl: requires fewer than 16 users for `BUILD_ACCOUNT`,
  because the source stores past `user_buffer` without a bound check.
- Decimal.Atoi: returns the mathematical value. `atoi` on a number that
  does not fit an `int` is undefined behaviour in ISO C.
- FanOut.SendMessage: requires a non-empty input. End-of-file on `fgets`
  leaves the message buffer as it was, which is not modelled.
- TestSender.SendMessage: as written, the table is NULL, so every call
  returns `SEND_ERR` (the clause `ret == COPY_ERR || ret == 0 ==> r ==
  Sent(SEND_ERR, [])`). The `allUser` parameter models a client whose
  table has been filled, so the later clauses describe code the program
  as written never reaches. The count and the private target are never
  initialised by the program, so they are parameters that may hold any
  value.
- TestSender.SendMessage: at end of input `fgets` leaves `message`
  unwritten. The contract then states only the checks made before the
  line is read, and not which records are sent.
- `clear_input_buffer()` (yms/chracter_device_chat/chat_by_chat_new.c:200)
  is not modelled. `FanOut.Line` reads from what remains after it has
  discarded the menu's pending line. At end of input without a newline
  that loop never ends, and this is not modelled either.
- The following front-end parts are I/O and process control, and are left
  out:
  - the clients' menus, `scanf` prompts, `fork`/`setsid` and signal
    handlers;
  - `read_message`;
  - the uninitialised `msg` written by the threaded client.
- RingDevice.OpenAtTailSeesNext: covers the first write after `open`
  only, not a sequence of writes.

## Findings

| source | as written | input that shows it | evidently intended | confidence | as-written member | corrected member |
|---|---|---|---|---|---|---|
| yms/succeed_version_sem/chat_device.c:122 | `open` sets the new reader's `head` to 0 | a device with `tail == 5`, then `open` by pid 7 and a read by process 8: the read visits slot 0, written before pid 7 registered | the cursor starts at `tail`, so a new reader sees only later messages | not executed | RingDevice.OpenReplaysHistory | RingDevice.OpenAtTailSkipsHistory |
| yms/final_chat_program/my_chat_device.c:242 | `count` is set to 0 at registration and only ever decremented, so the read loop's `count > 0` test never passes | registration of pid 7, a write of `"hi"`, then a read by process 8: the read returns `-EAGAIN` | the read first sets `count` to the pending distance, as the wraparound device does | not executed | CountDevice.RegisteredReadNeverDelivers | CountDevice.ReadPendingDelivers |
