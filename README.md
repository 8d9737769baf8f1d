# ip_freely in Dafny

`ip_freely.py` sweeps an IPv4 subnet. It expands a CIDR block such as
`192.168.1.0/24` into the dotted-decimal text of every address in it, network
and broadcast addresses included. It pings every address once, looks each one
up in reverse DNS and counts how many hosts answered. When asked, it also
flattens the results into CSV rows.

This project models that core and proves the properties it relies on:

- `bits.dfy` (module `Bits`) models Python's `<<`, `>>`, `&`, `|` and the masked
  32-bit `~` on non-negative integers. They are written on `nat`, bit by bit.
- `text.dfy` (module `Text`) models `str(n)` and `int(s)` on decimal numerals,
  `s.split(c)` for a one-character separator, and `sep.join(parts)`.
- `ipv4.dfy` (module `IPv4`) models `IPToInt`, `intToIP` and `cidrToIPS`. That
  covers the mask, network and broadcast arithmetic, and the expansion of a
  block into its addresses.
- `scanner.dfy` (module `Scanner`) models the result record of `reverseDNS`, the
  loop of `runList`, and the row-building loop of `exportToCSV`.
- `wrappers.dfy` (module `Wrappers`) holds `Option` and `Result`.

The ping exit code and the resolver's answer are parameters of the scan:
`ping: string -> int` and `lookup: string -> Lookup`. Each of these ways in which
`cidrToIPS` raises `ValueError` is a `Failure` of `IPv4.CidrToIPs`:

- the text does not hold exactly one `/`;
- the prefix is not a numeral;
- the address does not split into four numerals;
- the prefix is above 32, which makes the shift count negative.

`IPToInt` does not range-check its octets. An octet above 255 is OR-ed into
its neighbours' bits, and the model does the same.

## Model

| member | source | states |
|---|---|---|
| Bits.ShlShr | ip_freely.py:72 | `x << k` leaves its k low bits clear, and shifting back right by k gives x again |
| Bits.ShrBounds | ip_freely.py:86 | `x >> k` is x divided by 2^k rounded down: r·2^k ≤ x < (r + 1)·2^k |
| Bits.And | ip_freely.py:86 | `x & y` is at most each operand; its bit-level meaning is stated in Bits.AndLowMask, Bits.AndHighMask and Bits.AndBelow |
| Bits.AndLowMask | ip_freely.py:86 | masking with 2^k − 1 (`& 0xFF` for k = 8) keeps x mod 2^k |
| Bits.Or | ip_freely.py:72 | Python's bitwise OR of x and y lies between the larger operand and the sum; on values with no common bit it is the sum (Bits.OrDisjoint) |
| Bits.OrDisjoint | ip_freely.py:72 | when x & y == 0, x OR y == x + y |
| Bits.Complement | ip_freely.py:109 | `~x & (2^w − 1)` for x below 2^w is below 2^w; Bits.ComplementDisjoint states that it is the bitwise inversion |
| IPv4.IsDottedQuad | ip_freely.py:70-72 | the text `a, b, c, d = ip.split(".")` and four `int()` calls accept holds exactly three '.' and no '/' |
| IPv4.DottedQuadOfParts | ip_freely.py:70-72 | any four numerals joined with '.' are accepted, and part i's value is the numeral's value |
| IPv4.IPToInt | ip_freely.py:60-72 | on four octets a, b, c, d in 0..255 the value is a·2^24 + b·2^16 + c·2^8 + d, which is below 2^32 |
| IPv4.PackOctets | ip_freely.py:72 | OR-ing octets shifted by 24, 16, 8 and 0 is base-256 addition, since the shifted octets share no bit |
| IPv4.Octet | ip_freely.py:86 | `(n >> s) & 0xFF` is ⌊n / 2^s⌋ mod 256 |
| IPv4.IntToIP | ip_freely.py:75-86 | for every n the text is four '.'-separated canonical decimal numerals, each value in 0..255 |
| IPv4.IntToIPOctets | ip_freely.py:86 | octet i of the printed text is base-256 digit i of the low 32 bits of n, most significant first |
| IPv4.IPToIntOfIntToIP | ip_freely.py:60-86 | reading a printed address back gives n mod 2^32 |
| IPv4.ReadBack | ip_freely.py:60-86 | for every n below 2^32, IPToInt(IntToIP(n)) == n |
| IPv4.IntToIPOfIPToInt | ip_freely.py:60-86 | printing the value of a canonical dotted quad (octets 0..255, no leading zeros) gives back the same text |
| IPv4.IntToIPInjective | ip_freely.py:75-86 | two addresses below 2^32 print the same exactly when they are equal |
| IPv4.Mask | ip_freely.py:105 | the mask is 2^32 − 2^(32−prefix), below 2^32; prefix 0 gives 0 and prefix 32 gives 0xFFFFFFFF |
| IPv4.MaskValue | ip_freely.py:105 | `(0xFFFFFFFF << k) & 0xFFFFFFFF` has bits k..31 set and the rest clear, with both extremes |
| IPv4.MaskBits | ip_freely.py:105 | bit i of the mask (i < 32) is set exactly when i ≥ 32 − prefix: the top `prefix` bits |
| Bits.HighMaskBits | ip_freely.py:105 | the value 2^w − 2^k has bit i (i < w) set exactly when k ≤ i |
| IPv4.Network | ip_freely.py:108 | the network address is below 2^32 |
| IPv4.NetworkValue | ip_freely.py:108 | `ip_int & mask` is the low 32 bits of ip_int rounded down to a multiple of 2^(32−prefix) |
| Bits.AndHighMask | ip_freely.py:108 | for x below 2^w, x AND (2^w − 2^k) clears the k low bits of x |
| Bits.AndBelow | ip_freely.py:108 | AND with a mask below 2^w only sees the w low bits of the other operand |
| IPv4.NetworkAligned | ip_freely.py:108 | the network address is a multiple of the block size 2^(32−prefix) |
| IPv4.Broadcast | ip_freely.py:109 | broadcast + 1 == network + 2^(32−prefix), so network ≤ broadcast and the block holds 2^(32−prefix) addresses; broadcast is below 2^32 |
| IPv4.BroadcastValue | ip_freely.py:109 | `network OR (~mask & 0xFFFFFFFF)` sets every host bit of the aligned network address |
| Bits.ComplementDisjoint | ip_freely.py:109 | a w-bit value and its w-bit inversion share no bit and together fill all w bits |
| IPv4.BlockBelowLimit | ip_freely.py:108-109 | the whole block [network, broadcast] lies below 2^32 |
| IPv4.Expand | ip_freely.py:105-111 | the expansion is the printed form of the 2^(32−prefix) consecutive addresses from the network address on: 2^(32−prefix) strings, string i being intToIP(network + i) |
| IPv4.PrintedReadBack | ip_freely.py:111 | within 2^32, every printed string is a canonical address that reads back as first + i |
| IPv4.PrintedMembership | ip_freely.py:111 | an address below 2^32 is printed in the range exactly when first ≤ a < first + count |
| IPv4.ExpandAscending | ip_freely.py:111 | every element is a canonical address, and element i reads back as network + i: strictly ascending and consecutive |
| IPv4.ExpandFirst | ip_freely.py:108-111 | the first element is the printed network address |
| IPv4.ExpandLast | ip_freely.py:109-111 | the last element is the printed broadcast address |
| IPv4.ExpandHostRoute | ip_freely.py:105-111 | a /32 block is exactly the one address: [intToIP(ip_int mod 2^32)] |
| IPv4.InBlock | ip_freely.py:105-109 | a & mask is a's network address, and it equals ip_int's exactly when a lies in [network, network + 2^(32−prefix)) |
| IPv4.ExpandMembership | ip_freely.py:105-111 | an address a below 2^32 is in the expansion exactly when a & mask == ip_int & mask |
| IPv4.CidrToIPs | ip_freely.py:89-111 | the text is refused at the `ip, prefix = cidr.split("/")` unpacking exactly when it does not hold exactly one '/'; an accepted block holds between 1 and 2^32 addresses, each a canonical dotted quad |
| IPv4.CidrToIPsOfParts | ip_freely.py:100-111 | on ip + "/" + prefix the prefix numeral is checked first, then the address, then the prefix's range; text that passes expands the block of IPToInt(ip) and int(prefix) |
| IPv4.CidrToIPsHostRoute | ip_freely.py:89-111 | for a canonical address ip, "ip/32" expands to exactly [ip] |
| Text.Decimal | ip_freely.py:86 | `str(n)` is a canonical numeral whose value is n |
| Text.DecimalOfNumeralValue | ip_freely.py:72-86 | `str(int(s)) == s` for a canonical numeral s |
| Text.SplitCount | ip_freely.py:100 | `s.split(c)` has one part more than s has occurrences of c |
| Text.SplitJoin | ip_freely.py:70-86 | splitting a '.'-join of dot-free parts gives back the parts |
| Text.JoinSplit | ip_freely.py:70-86 | joining the parts of a split with the separator gives back the string |
| Scanner.ReverseDNS | ip_freely.py:21-57 | the record keeps the ip; the error is absent exactly when the lookup resolved; a resolved record carries the name, aliases and addresses; a failed one has no hostname, empty lists and "No PTR record found" (herror) or "Invalid IP address" (gaierror) |
| Scanner.Status | ip_freely.py:200-211 | the status is "active" exactly when the ping exit code is 0, and is otherwise "inactive" |
| Scanner.ScanHost | ip_freely.py:199-214 | the result for a host carries that host as its ip and as its record's ip, is "active" exactly when its ping returned 0, and holds a well-shaped lookup record |
| Scanner.Scan | ip_freely.py:198-214 | one result per host, and every status is "active" or "inactive" |
| Scanner.ScanOrder | ip_freely.py:198-214 | one result per host, in order: result i is for host i, its status is "active" exactly when ping of host i returned 0, and it carries host i's lookup record |
| Scanner.CountsPartition | ip_freely.py:194-216 | when every status is one of the two, the active and inactive counts add up to the number of results |
| Scanner.ScanCounts | ip_freely.py:194-216 | the "active" count is the number of hosts whose ping returned 0, and the "inactive" count is the rest |
| Scanner.HostnameCell | ip_freely.py:164 | `dns.get("hostname") or ""`: None becomes "" and a name is kept |
| Scanner.RowOf | ip_freely.py:159-169 | the row keeps the ip and status; for a record of either shape DNS Error is "" exactly when the record has no error, and a failed record gives empty Hostname, Aliases and Addresses and its error message |
| Scanner.RowOfLookup | ip_freely.py:158-169 | a row keeps the ip and status; DNS Error is "" exactly when the lookup resolved; a resolved row has the name and the ", "-joined aliases and addresses; a failed one has empty Hostname, Aliases and Addresses and the error message |
| Scanner.ExportRows | ip_freely.py:158-169 | one row per result, in order: row i is the row of result i |
| Scanner.RunList | ip_freely.py:181-222 | the results are the in-order scan of hosts; each counter equals the number of results with its status; active + inactive == len(hosts); active is the number of hosts that answered the ping; rows exist exactly when the export is requested, and are then one per result in order |

## Left out

- `pingHost` (ip_freely.py:118-130) is a shell call to `ping` through `os.system`. The model has only its exit code, the `ping` parameter.
- `socket.gethostbyaddr` (ip_freely.py:33) is a network call. The model has only its three outcomes, the `lookup` parameter. Any exception other than `herror` and `gaierror` would escape `runList`, and that is not modelled.
- Scanner.RunList: `ping` and `lookup` are functions, so a host that occurs twice gets the same answer both times. A real network need not behave that way.
- Scanner.RunList returns `active` and `inactive` and does not print the summary line. It also returns the rows instead of handing them to pandas. The live console messages are not modelled.
- `exportToCSV`'s timestamped file name (ip_freely.py:153-155), `pandas.DataFrame`, `to_csv` and the final print (ip_freely.py:171-174) are clock and file I/O and are not modelled. Only the rows loop is.
- The `__main__` entry point with `input()` (ip_freely.py:229-231) is console I/O and is not modelled.
- IPv4.CidrToIPs: Python's `int()` also accepts surrounding whitespace, a sign, underscores between digits and non-ASCII digits. The model reads only plain ASCII digit strings and refuses the rest. So `"10.0.0.0/-1"`, which Python expands to the whole address space, is a `MalformedPrefix` here, and a negative octet is a `MalformedAddress`.
- IPv4.CidrToIPs: CPython 3.11 and later (and the security releases 3.10.7, 3.9.14 and 3.8.14) make `int()` raise `ValueError` on a decimal string longer than 4300 digits (the `int_max_str_digits` limit). The model has no such limit: `"1"*4301 + ".0.0.0/24"` is a `Success` of 256 addresses here, where those versions raise at `int(a)`.
- IPv4.IPToInt states its value only for octets 0..255. For a larger octet its body ORs the overlapping bits exactly as Python does, but no closed form is proved.
- Bits.And, Bits.Or and Bits.Complement: their own contracts state only bounds, so that their bit-level facts are not drawn into every proof that mentions them. What `&`, `|` and `~` mean bit by bit is proved in separate lemmas: Bits.AndLowMask, Bits.AndHighMask, Bits.AndBelow, Bits.OrDisjoint and Bits.ComplementDisjoint.
- IPv4.Network's own contract states only the bound below 2^32. Its value is stated separately in IPv4.NetworkValue.
- The code has no worker pool, no per-probe timeout and no ceiling on the number of addresses. The scan is a plain sequential loop (ip_freely.py:198) and `cidrToIPS` has no size guard, so the model has none of them either.
