# pftabled in Dafny

A model of pftabled: a small daemon that keeps one OpenBSD pf table in step
with commands sent to it over a socket. The model covers the daemon's core:

* `pftable.py`: the ioctl request numbers (`_IOC`, `_IOWR`); the table entry
  `PFTableAddr` with its text form (`[!] address[/prefix]`) and its kernel
  record (`struct pfr_addr`); and the `PfTable` mirror. The mirror is a set
  of entries. Every change goes to the set first, and then the whole set is
  pushed to the kernel with one replace-all request (`DIOCRSETADDRS`). The
  kernel table is read once, when the table is opened (`DIOCRGETADDRS`,
  with the buffer grown until the table fits).
* `pftabled.py`: `process_command`, which reads one command, changes the
  table and writes one reply, and the loop of `CommandHandler.handle`, which
  strips each input line and processes every non-blank one.

Modules, in dependency order:

| module | file | models |
|---|---|---|
| `Wrappers` | `wrappers.dfy` | `Option` and `Result` |
| `Bytes` | `bytes.dfy` | the fixed-width unsigned integers of the C structures |
| `Text` | `text.dfy` | the parts of Python's `str` the code relies on: `isspace`, `strip`, `lstrip`, `split`, `join`, decimal and hex digits |
| `IoCcom` | `ioccom.dfy` | `_IOC` and `_IOWR` on unbounded integers, with `\|`, `&` and `<<` written out bit by bit |
| `Ipv4`, `Ipv6` | `ipv4.dfy`, `ipv6.dfy` | how Python's `ipaddress` parses and prints addresses |
| `IpNetworks` | `ipnetworks.dfy` | `ipaddress.ip_network(text, strict=False)`: prefixes, netmasks, masking |
| `PfAddr` | `pfaddr.dfy` | `PFTableAddr`: equality, hashing, text and record forms |
| `PfKernel` | `pfkernel.dfy` | `/dev/pf` as an object holding the kernel's tables, with the two table ioctls as methods |
| `PfTables` | `pftables.dfy` | the `PfTable` class |
| `Daemon` | `daemon.dfy` | the command protocol and the per-connection loop |

Errors follow the Python exceptions. `InvalidAddress` is the `ValueError`
from `ipaddress`. `UnknownFamily` is the `KeyError` raised when a record has a
foreign address family. `IoctlFailed(errno)` is the `OSError` from `ioctl`.

The kernel is an oracle: a map from table names to the records each table
holds. A fetch copies as many records as fit into the buffer and reports the
table's true size. A replace-all either sets the table to the buffer and
reports how many records left and how many arrived, or is refused with an
errno (`EPERM`, `ENOMEM`, `EACCES`, `EFAULT` or `EINVAL`) and changes nothing;
which of the two happens is left open. A name with no table gets `ESRCH`.

`PfTable.Synced()` says that the kernel table holds exactly the records of
the set. An operation whose push the kernel takes preserves it, and then the
counts it returns are the ones the source's callers expect: 1 or 0 for `add`
and `remove`, and the old size for `clear`. An operation whose push the
kernel refuses leaves the set changed and the kernel as it was, so the mirror
is then out of step. An operation that does not change the set (an add of a
present entry, a remove of an absent one) sends nothing and cannot fail. `Daemon.Handle` ties a whole connection to a
reference semantics. Each command line has a meaning (an `Action`). The set
after the stream is the actions' effects applied in order (`Run`). Each
reply answers its action in the state the earlier actions left
(`Transcript`).

A failing kernel request has a specific outcome in the code. The set has
already been changed when the push fails, and the `OSError` is not caught
by `process_command`, so it ends the connection without a reply. A design
in which the set is rolled back, or in which the client gets a generic
error reply, would differ from this. The model follows the code: see
`PfTables.PfTable.Insert`, `PfTables.PfTable.Delete`,
`PfTables.PfTable.Clear` and `Daemon.Handle`.

## Model

| member | source | states |
|---|---|---|
| IoCcom.IocLayout | pftable.py:21-22 | when the direction has no bits below 29, and group and number fit in a byte, the request number is direction + (length mod 2^13)·2^16 + group·2^8 + number: the or-ed fields do not overlap |
| IoCcom.IocFields | pftable.py:21-22 | number, group, the 13-bit length and the direction can each be read back from the request number |
| IoCcom.IocLengthTruncated | pftable.py:22 | only the low 13 bits of the argument length reach the request number (`len & IOCPARM_MASK`) |
| IoCcom.BitAndLowMask | pftable.py:22 | and-ing with 2^k − 1 keeps the value modulo 2^k |
| IoCcom.BitOrDisjoint | pftable.py:22 | or-ing a value whose low k bits are clear with a value below 2^k is their sum |
| IoCcom.IocInOutValue | pftable.py:9-13 | `IOC_INOUT = IOC_IN \| IOC_OUT` is 0xC0000000 |
| IoCcom.IoWRDirection | pftable.py:25-26 | a `_IOWR` request has both the in and the out direction bits set and fits in 32 bits |
| IoCcom.DiocrRequestsDistinct | pftable.py:67-68 | `DIOCRSETADDRS` and `DIOCRGETADDRS` are distinct for every structure size; their command numbers are 69 and 70 and their group is `'D'` |
| Text.LStripSuffix | pftable.py:96 | what `lstrip()` keeps is a suffix of its input |
| Text.RStripPrefix | pftable.py:95 | what `rstrip()` keeps is a prefix of its input |
| Text.LStripCharSuffix | pftable.py:96 | what `lstrip("!")` keeps is a suffix of its input |
| Text.StripSlice | pftable.py:95 | what `strip()` keeps is the slice of its input after the leading whitespace, and everything of the input outside that slice is whitespace |
| Text.Strip | pftable.py:95 | `strip()` removes exactly the surrounding whitespace: the result neither starts nor ends with whitespace, text without surrounding whitespace is kept, and all-whitespace text becomes empty |
| Text.LStrip | pftable.py:96 | `lstrip()` drops only leading whitespace, and what it keeps does not start with whitespace |
| Text.LStripChar | pftable.py:96 | `lstrip("!")` drops only leading `!`, and what it keeps does not start with `!` |
| Text.Split | pftable.py:96 | `split(sep)` gives at least one piece, no piece holds the separator, and joining the pieces gives back the text |
| Text.SplitJoin | pftable.py:96 | splitting a join gives back the pieces when none of them holds the separator |
| Text.JoinChars | pftable.py:107-115 | every character of a join comes from a piece or from the separator |
| Text.DecimalString | pftable.py:111 | `str(n)` is a digit string without leading zeros whose value is `n`, with at most as many digits as `n` needs |
| Text.HexString | pftable.py:109 | `'%x' % n` is a hex string whose value is `n`, at most four digits long for a 16-bit value, with no colon, dot, slash, `!` or whitespace in it |
| Ipv4.OctetCanonical | pftable.py:96 | an octet text parses to `b` exactly when it is the decimal printing of `b` |
| Ipv4.OctetsCanonical | pftable.py:96 | a list of octet texts parses to `b` exactly when it is the printing of `b`, octet by octet |
| Ipv4.V4TextCanonical | pftable.py:96 | an IPv4 text parses to the four bytes `b` exactly when it is the dotted-quad printing of `b` |
| Ipv4.V4RoundTrip | pftable.py:109 | parsing the printed IPv4 address gives back the address |
| Ipv4.V4NeedsDots | pftable.py:96 | text without a dot is never an IPv4 address |
| Ipv4.V4Chars | pftable.py:109 | a printed IPv4 address is non-empty and made of digits and dots only |
| Ipv6.BytesOfHextets | pftable.py:109 | the eight 16-bit groups of an address give back its sixteen bytes |
| Ipv6.ParseWords | pftable.py:96 | each printed group parses back to the group |
| Ipv6.ScanFindsLongest | pftable.py:109 | from any consistent scan state, the scan of `_compress_hextets` ends with a run of `"0"` groups that no other run is longer than, and the leftmost of that length |
| Ipv6.BestZeroRun | pftable.py:109 | the run that `::` replaces is a longest run of zero groups, and the first one of that length |
| Ipv6.CompressedParts | pftable.py:109 | the printed parts, with the best zero run compressed to `::`, are read back by the parser's `::` rules as the original groups |
| Ipv6.V6RoundTrip | pftable.py:109 | parsing the printed IPv6 address gives back the address |
| Ipv6.V6Chars | pftable.py:109 | a printed IPv6 address is non-empty and made of hex digits and colons only |
| IpNetworks.ParseNetwork | pftable.py:96 | `ip_network(text, False)` yields only well-formed networks: the right width, a prefix within it, and no host bits |
| IpNetworks.ParseV4Network | pftable.py:96 | a parsed IPv4 network is a well-formed IPv4 network |
| IpNetworks.ParseV6Network | pftable.py:96 | a parsed IPv6 network is a well-formed IPv6 network |
| IpNetworks.ParseWithPrefix | pftable.py:96 | an address followed by `/p` parses to the network of prefix `p` with the host bits cleared (`strict=False`) |
| IpNetworks.ParseBare | pftable.py:96 | an address without a prefix parses to the network holding that address alone |
| IpNetworks.AddressParses | pftable.py:96 | a printed IPv4 address parses as IPv4; a printed IPv6 address is not IPv4 and parses as IPv6 |
| IpNetworks.FormatAddressChars | pftable.py:109 | a printed address is non-empty, made of hex digits, dots and colons, and an IPv6 one has no dot |
| IpNetworks.MaskIdempotent | pftable.py:96 | masking a masked address changes nothing |
| IpNetworks.MaskFull | pftable.py:96 | a prefix covering every bit keeps the whole address |
| IpNetworks.MaskBytes | pftable.py:96 | masking keeps the bytes wholly inside the prefix and clears those wholly outside it |
| IpNetworks.NetmaskInjective | pftable.py:96 | different prefix lengths have different netmasks |
| IpNetworks.HostmaskInjective | pftable.py:96 | different prefix lengths have different hostmasks |
| IpNetworks.MaskPrefixFrom | pftable.py:96 | a dotted-quad mask after `/` is read as the prefix whose netmask (or hostmask) it is, and is refused when there is none |
| IpNetworks.NetmaskPrefix | pftable.py:96 | `a.b.c.d/<netmask of p>` is read as prefix `p` |
| IpNetworks.HostmaskPrefix | pftable.py:96 | `a.b.c.d/<hostmask of p>` is read as prefix `p` when `0 < p < 32` |
| IpNetworks.HostmaskNotNetmask | pftable.py:96 | a hostmask strictly inside the address is never also a netmask, so the two readings never clash |
| PfAddr.EqualIsIdentity | pftable.py:85-88 | `__eq__` (same network, same negate flag) is value equality of entries, so a set of entries behaves as the Python set does |
| PfAddr.HashConsistent | pftable.py:90-91 | equal entries hash alike; entries that differ only in negation are unequal but hash alike |
| PfAddr.ParseText | pftable.py:93-97 | a parsed entry is well-formed; it is negated exactly when the stripped text starts with `!`; the only error is an invalid address |
| PfAddr.TextRoundTrip | pftable.py:93-115 | parsing the printed form of an entry gives back the entry |
| PfAddr.TextInjective | pftable.py:107-115 | distinct entries print differently |
| PfAddr.NetworkRoundTrip | pftable.py:107-111 | the printed network parses back to the network |
| PfAddr.FormatNetworkChars | pftable.py:107-111 | the printed network is non-empty and made of hex digits, dots, colons and `/` only |
| PfAddr.ZeroBytes | pftable.py:119 | a zero-filled field has the requested length and holds only zeros |
| PfAddr.ToStruct | pftable.py:117-131 | `to_struct` writes the packed address into the zeroed union and yields the entry's record: family, prefix length, `int(negate)`, no feedback, a plain entry, the rest zero |
| PfAddr.FromStruct | pftable.py:99-105 | a family other than `AF_INET`/`AF_INET6` is exactly the `KeyError` case; a decoded entry is well-formed and its family is the record's |
| PfAddr.StructRoundTrip | pftable.py:99-131 | decoding the record of an entry gives back the entry |
| PfAddr.EncodedInjective | pftable.py:117-131 | distinct entries have distinct records |
| PfAddr.RecordRoundTrip | pftable.py:99-131 | a record of the shape `to_struct` produces, if it decodes, re-encodes to itself |
| PfAddr.EncodedCanonical | pftable.py:117-131 | every record `to_struct` produces has that shape |
| PfKernel.ReplaceCounts | pftable.py:176-178 | the deleted and added counts of a replace-all are bounded by the old and new table sizes, and both are 0 when the contents do not change |
| PfKernel.PfDevice.constructor | pftable.py:136 | the device holds the given tables |
| PfKernel.PfDevice.GetAddrs | pftable.py:153-158 | `DIOCRGETADDRS` copies the first records of the table that fit, leaves the rest of the buffer as it was, and reports the table's true size; an unknown table is `ESRCH` |
| PfKernel.PfDevice.SetAddrs | pftable.py:170-178 | `DIOCRSETADDRS` on an unknown table is `ESRCH`; on a table that exists it either makes the buffer the table's contents, changes no other table and reports the counts of the change, or is refused with one of the errors a replace can give and changes nothing |
| PfTables.DecodeAll | pftable.py:164 | the list of records decodes exactly when every record does, element by element in order; otherwise the error is that of a record that does not decode |
| PfTables.DecodeEncoded | pftable.py:164 | decoding the records of a list of entries gives back the list |
| PfTables.CanonicalSynced | pftable.py:138 | for canonical records, the set decoded from the kernel table encodes back to exactly the table's records |
| PfTables.EncodedSetInsert | pftable.py:185-187 | adding an absent entry adds exactly its record to the set's records |
| PfTables.EncodedSetDelete | pftable.py:196-198 | removing a present entry removes exactly its record |
| PfTables.EncodedSetSize | pftable.py:173 | a set of entries has as many records as members |
| PfTables.InsertCount | pftable.py:185-189 | pushing a set grown by one entry to a table in step reports one record added |
| PfTables.DeleteCount | pftable.py:196-200 | pushing a set shrunk by one entry to a table in step reports one record deleted |
| PfTables.ClearCount | pftable.py:206-211 | pushing the empty set to a table in step reports every member deleted |
| PfTables.MirrorsStep | pftable.py:166-178 | after several replace-all requests on one table the kernel shows only the last one it took, and no other table has changed |
| PfTables.ListingParses | pftable.py:202-204 | each line of a listing parses to a member, and each member is printed on some line |
| PfTables.EmptyListing | pftable.py:202-204 | an empty table lists nothing |
| PfTables.PfTable.constructor | pftable.py:135-139 | a new mirror is bound to the device and the name, with an empty set |
| PfTables.PfTable.Open | pftable.py:135-139 | opening fails with `ESRCH` on an unknown table and with the decode error on an undecodable record; otherwise the set is the set of the decoded records, and for canonical records the mirror starts in step with the kernel |
| PfTables.PfTable.GetAddresses | pftable.py:147-164 | the fetch loop returns the whole kernel table, decoded, whatever the initial buffer size; an unknown table is `ESRCH` |
| PfTables.PfTable.SetAddresses | pftable.py:166-178 | an unknown table is `ESRCH`; a refused push changes no table; a push the kernel takes leaves the kernel table holding one record per member of the set, changes no other table, and returns the kernel's counts |
| PfTables.PfTable.Insert | pftable.py:184-189 | the entry is in the set afterwards; an entry already present returns 0 and makes no request; otherwise the set is pushed, a taken push returns the added count and a refused one changes no table; a mirror in step whose push is taken stays in step and returns 1, and one whose push is refused is out of step |
| PfTables.PfTable.Delete | pftable.py:195-200 | the entry is not in the set afterwards; an absent entry returns 0 and makes no request; otherwise the set is pushed, a taken push returns the deleted count and a refused one changes no table; a mirror in step whose push is taken stays in step and returns 1, and one whose push is refused is out of step |
| PfTables.PfTable.Add | pftable.py:180-189 | an invalid address is `ValueError` and changes nothing; a valid one is inserted as `Insert` states; a mirror in step stays in step unless the kernel refuses the push, and then returns 1 for a new entry and 0 for a present one; a refused push leaves it out of step |
| PfTables.PfTable.Remove | pftable.py:191-200 | an invalid address is `ValueError` and changes nothing; a valid one is removed as `Delete` states; a mirror in step stays in step unless the kernel refuses the push, and then returns 1 for a present entry and 0 for an absent one; a refused push leaves it out of step |
| PfTables.PfTable.List | pftable.py:202-204 | the listing holds the printed form of every member, once each, and nothing else |
| PfTables.PfTable.Clear | pftable.py:206-211 | the set is empty afterwards and pushed; a taken push leaves the kernel table empty and returns the deleted count, a refused one changes no table; a mirror in step whose push is taken stays in step and returns the old size, and a non-empty one whose push is refused is out of step |
| Daemon.CommandText | pftabled.py:12-32 | every command has a non-empty spelling |
| Daemon.CommandRoundTrip | pftabled.py:12-32 | every command except one with an empty address is recognised again from its spelling |
| Daemon.AddRemoveSyntax | pftabled.py:14-25 | a line adds (removes) the address `a` exactly when it is `+a` (`-a`) with `a` non-empty |
| Daemon.ExactCommands | pftabled.py:26-32 | only the exact texts `?` and `.` list and clear; any other line of two or more characters that does not start with a sign is unknown |
| Daemon.PrintedEntryCommands | pftabled.py:14-25 | `+` or `-` followed by an entry's printed form adds or removes exactly that entry |
| Daemon.InvalidAddressRefused | pftabled.py:33-34 | a signed line whose address does not parse is answered `ERROR: INVALID ADDRESS` and changes no set |
| Daemon.PushesChanges | pftable.py:184-200 | an action that sends nothing to the kernel leaves the set as it was, and an add or remove that sends the set has changed it |
| Daemon.EffectIdempotent | pftable.py:185-186 | repeating an add, a remove or a clear changes nothing more |
| Daemon.EffectLocal | pftable.py:185-197 | an add or a remove changes the membership of its own entry and of no other |
| Daemon.InsertThenDelete | pftable.py:180-200 | adding an absent entry and then removing it gives the set back |
| Daemon.EffectValid | pftabled.py:12-32 | every command keeps the set made of well-formed entries |
| Daemon.EmptyListReply | pftabled.py:27 | the listing of an empty table is a lone newline |
| Daemon.TextHasNoNewline | pftable.py:107-115 | no printed entry holds a newline |
| Daemon.ListingHasNoNewline | pftable.py:202-204 | no line of a listing holds a newline |
| Daemon.ListReplyLines | pftabled.py:27 | the `?` reply of a non-empty table ends in a newline, and the lines before it are as many as the members, each parsing to a member, with each member printed on one |
| Daemon.ProcessCommand | pftabled.py:12-34 | the set changes as the command's meaning says; an add of a present entry, a remove of an absent one, a list and a refused command make no kernel request and are always answered; otherwise the set is pushed and the command is answered exactly when the kernel takes it, the table then holding the new set and no other table changing, while a refused push changes no table; an answer is the one the meaning calls for in the old set; the only error is a failed kernel request; a table in step stays in step when answered and is out of step after a refused push that changed the set |
| Daemon.Execute | pftabled.py:14-32 | the same as `ProcessCommand`, once the command has been classified |
| Daemon.AddCommand | pftabled.py:14-19 | the `+` branch: the set changes as the add's meaning says, the kernel as `ProcessCommand` states, and the reply is `OK` or `ERROR: INVALID ADDRESS`; a table in step whose push is refused is out of step |
| Daemon.RemoveCommand | pftabled.py:20-25 | the `-` branch: the set changes as the remove's meaning says, the kernel as `ProcessCommand` states, and the reply is `OK` or `ERROR: INVALID ADDRESS`; a table in step whose push is refused is out of step |
| Daemon.LineActions | pftabled.py:40-41 | a line carries at most one action, and a blank one none |
| Daemon.Actions | pftabled.py:39-41 | a stream of lines carries at most one action per line |
| Daemon.TranscriptAt | pftabled.py:39-42 | reply `i` of a transcript answers action `i` in the state the earlier actions left |
| Daemon.TranscriptStep | pftabled.py:39-42 | answering the next action in the current state extends the transcript |
| Daemon.TranscriptExtend | pftabled.py:39-42 | a transcript stays one when more actions follow |
| Daemon.TranscriptPrefix | pftabled.py:39-42 | a transcript of the first actions is a transcript of the whole stream |
| Daemon.BlankLinesIgnored | pftabled.py:40-41 | a whitespace-only line adds no action |
| Daemon.ActionsPrefix | pftabled.py:39-41 | the actions of the first lines are the first actions of the stream |
| Daemon.ServeLine | pftabled.py:39-42 | a blank line gets no reply and changes neither the set nor the kernel; a command is carried out, changes the kernel as `ProcessCommand` states, and is then either answered as its meaning says or fails in the kernel, never both |
| Daemon.HandleLine | pftabled.py:39-42 | one turn of the loop extends the transcript and the run by the line's action, or stops with the set already changed; either way the kernel shows the set of the last push it took, which without a failure is the current set and after one is the set before the failed command |
| Daemon.Handle | pftabled.py:37-42 | without a kernel failure, there is one reply per command, each answering its command in the state the earlier commands left, the set is the effect of all commands in order, and the kernel is untouched or holds that set; after a failure, the replies answer the commands before it, the set includes the failed command's change, and the kernel is untouched or holds the set before that command; a table in step that never fails stays in step |

## Left out

- The socket, TLS, `main`, argument parsing, `pledge`/`unveil` and the client (`pftableclient.py`) are not part of this model. `Daemon.Handle` takes the input as a sequence of already-decoded lines and returns the replies as values, in place of writing them to the stream.
- A line that is not valid UTF-8 makes `line.decode()` raise; the model's lines are already text.
- The lock around the set, and threads serving several connections at once: each operation is modelled as one atomic step.
- The real `ioctl` and `/dev/pf` are an oracle object (`PfKernel.PfDevice`); `__del__` and closing the device are left out. A fetch fails only with `ESRCH` for a missing table; a replace-all can also be refused, with no reason modelled for when.
- PfKernel.PfDevice.SetAddrs: the oracle keeps the records it is given as they are. The kernel keys a table's entries by address and prefix, so `X` and `! X` cannot both be in a real table, while the mirror's set (whose `__eq__` includes the negate flag) can hold both. After `+! X` then `+X` the model reports the mirror in step, holding two records; the real kernel's outcome for that pair is not modelled.
- PfKernel.ReplaceCounts: the kernel's duplicate-entry and negation-change rules are not modelled; the changed count is always 0, and the counts are computed on the sets of records.
- PfTables.PfTable.GetAddresses: the kernel table is assumed not to change between two fetches of the growing loop; the fetch is therefore proved to stop after at most one regrowth.
- `sizeof(pfioc_table)` comes from ctypes layout rules; the request-number functions take it as a parameter. The C structures `pfr_table` and `pfioc_table` are replaced by the parameters and results of the kernel methods.
- Python's `set` iterates in an order that depends on hashing. `list`, and the record order sent by `_set_addresses`, are therefore specified up to order.
- Text.LStrip, Text.LStripChar, Text.Strip: the contracts on the functions give the kept text's length, its first (or last) character and the whitespace dropped; that the kept text is a suffix, prefix or slice of the input is stated by `Text.LStripSuffix`, `Text.LStripCharSuffix`, `Text.RStripPrefix` and `Text.StripSlice` instead, because an equation between the result and a slice of the input on the functions themselves would be unfolded in every proof that parses an entry.
- IPv6 scope identifiers (`%zone`) are not modelled. An IPv6 prefix is decimal digits only, as in `ipaddress`.
- The IPv6 printer follows `_compress_hextets` of Python 3.12 and earlier. The special printing of IPv4-mapped addresses in later versions is not modelled.
