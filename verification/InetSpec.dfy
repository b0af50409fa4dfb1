/** The text of IPv6 addresses (section 2.2 of RFC 4291): what the parser makes of it and how the
    printer writes it. */
module InetSpec {
  datatype Option<T> = None | Some(value: T)

  /** The bytes of an IPv6 address. */
  const ADDRESS_SIZE := 16
  const WORDS := 8

  predicate IsByte(n: int) { 0 <= n < 256 }

  predicate IsWord(n: int) { 0 <= n < 0x10000 }

  predicate Address(a: seq<int>) {
    |a| == ADDRESS_SIZE && forall i :: 0 <= i < |a| ==> IsByte(a[i])
  }

  function TwoBytes(w: int): (r: seq<int>)
    ensures |r| == 2
  {
    [w / 256 % 256, w % 256]
  }

  function BytesOf(ws: seq<int>): (r: seq<int>)
    ensures |r| == 2 * |ws|
  {
    if ws == [] then [] else TwoBytes(ws[0]) + BytesOf(ws[1..])
  }

  function Zeros(n: nat): (r: seq<int>)
    ensures |r| == n && forall i :: 0 <= i < n ==> r[i] == 0
  {
    seq(n, _ => 0)
  }

  // ----- digits -----

  function DecDigit(c: char): Option<int> {
    if '0' <= c <= '9' then Some(c as int - '0' as int) else None
  }

  function HexDigit(c: char): Option<int> {
    if '0' <= c <= '9' then Some(c as int - '0' as int)
    else if 'a' <= c <= 'f' then Some(c as int - 'a' as int + 10)
    else if 'A' <= c <= 'F' then Some(c as int - 'A' as int + 10)
    else None
  }

  // ----- inet_pton4 -----

  /** The octets before the one being read, that octet so far, and whether it has a digit yet. */
  function Quad(src: string, done: seq<int>, cur: int, saw: bool): Option<seq<int>>
    decreases |src|
  {
    if src == "" then
      if |done| + (if saw then 1 else 0) < 4 then None else Some(done + [cur])
    else
      match DecDigit(src[0])
      case Some(d) =>
        if cur * 10 + d > 255 then None
        else if !saw && |done| + 1 > 4 then None
        else Quad(src[1..], done, cur * 10 + d, true)
      case None =>
        if src[0] == '.' && saw then
          if |done| + 1 == 4 then None else Quad(src[1..], done + [cur], 0, false)
        else None
  }

  function Pton4(src: string): Option<seq<int>> { Quad(src, [], 0, false) }

  // ----- inet_pton6 -----

  /** The bytes written, the place of the double colon, the group being read, and the text from the
      start of that group. */
  datatype Scan = Scan(out: seq<int>, colon: Option<nat>, saw: bool, val: int, tok: string)

  function Flush(st: Scan): Option<(seq<int>, Option<nat>)> {
    if !st.saw then Some((st.out, st.colon))
    else if |st.out| + 2 > ADDRESS_SIZE then None
    else Some((st.out + TwoBytes(st.val), st.colon))
  }

  function Run6(src: string, st: Scan): Option<(seq<int>, Option<nat>)>
    decreases |src|
  {
    if src == "" then Flush(st)
    else
      match HexDigit(src[0])
      case Some(d) =>
        if st.val * 16 + d > 0xffff then None
        else Run6(src[1..], st.(val := st.val * 16 + d, saw := true))
      case None =>
        if src[0] == ':' then
          if !st.saw then
            if st.colon.Some? then None
            else Run6(src[1..], st.(colon := Some(|st.out|), tok := src[1..]))
          else if |st.out| + 2 > ADDRESS_SIZE then None
          else Run6(src[1..], Scan(st.out + TwoBytes(st.val), st.colon, false, 0, src[1..]))
        else if src[0] == '.' && |st.out| + 4 <= ADDRESS_SIZE && Pton4(st.tok).Some? then
          Some((st.out + Pton4(st.tok).value, st.colon))
        else None
  }

  /** What the shift at the end leaves when the double colon stood at byte `c`: the bytes after it
      move to the end; if there is no room left between, they are overwritten with zeros. */
  function Shifted(out: seq<int>, c: nat): (r: seq<int>)
    requires c <= |out| <= ADDRESS_SIZE
    ensures |r| == ADDRESS_SIZE
  {
    if |out| == ADDRESS_SIZE then out[..c] + Zeros(ADDRESS_SIZE - c)
    else out[..c] + Zeros(ADDRESS_SIZE - |out|) + out[c..]
  }

  function Finish(out: seq<int>, colon: Option<nat>): Option<seq<int>> {
    if colon.Some? && colon.value <= |out| <= ADDRESS_SIZE then Some(Shifted(out, colon.value))
    else if colon.None? && |out| == ADDRESS_SIZE then Some(out)
    else None
  }

  function Pton6(src: string): Option<seq<int>> {
    if src != "" && src[0] == ':' && (|src| == 1 || src[1] != ':') then None
    else
      var text := if src != "" && src[0] == ':' then src[1..] else src;
      match Run6(text, Scan([], None, false, 0, text))
      case None => None
      case Some((out, colon)) => Finish(out, colon)
  }

  // ----- groups -----

  function HexFrom(v: int, g: string): int
    requires forall i :: 0 <= i < |g| ==> HexDigit(g[i]).Some?
    decreases |g|
  {
    if g == "" then v else HexFrom(v * 16 + HexDigit(g[0]).value, g[1..])
  }

  function DecFrom(v: int, g: string): int
    requires forall i :: 0 <= i < |g| ==> DecDigit(g[i]).Some?
    decreases |g|
  {
    if g == "" then v else DecFrom(v * 10 + DecDigit(g[0]).value, g[1..])
  }

  /** A group: hexadecimal digits, any number and either case, of a value that fits. */
  predicate IsGroup(g: string) {
    g != "" && (forall i :: 0 <= i < |g| ==> HexDigit(g[i]).Some?) && HexFrom(0, g) <= 0xffff
  }

  predicate IsOctet(g: string) {
    g != "" && (forall i :: 0 <= i < |g| ==> DecDigit(g[i]).Some?) && DecFrom(0, g) <= 255
  }

  predicate Groups(gs: seq<string>) { forall i :: 0 <= i < |gs| ==> IsGroup(gs[i]) }

  function Joined(gs: seq<string>): string {
    if gs == [] then "" else if |gs| == 1 then gs[0] else gs[0] + ":" + Joined(gs[1..])
  }

  function ValuesOf(gs: seq<string>): (r: seq<int>)
    requires Groups(gs)
    ensures |r| == |gs|
  {
    if gs == [] then [] else [HexFrom(0, gs[0])] + ValuesOf(gs[1..])
  }

  /** Four decimal octets at the end of an address. */
  datatype Dotted = Dotted(a: string, b: string, c: string, d: string) {
    predicate Valid() { IsOctet(a) && IsOctet(b) && IsOctet(c) && IsOctet(d) }

    function Text(): string { a + "." + b + "." + c + "." + d }

    function Bytes(): (r: seq<int>)
      requires Valid()
      ensures |r| == 4
    {
      [DecFrom(0, a), DecFrom(0, b), DecFrom(0, c), DecFrom(0, d)]
    }
  }

  /** Groups, and possibly four octets after them. */
  datatype Tail = Tail(groups: seq<string>, quad: Option<Dotted>) {
    predicate Valid() { Groups(groups) && (quad.Some? ==> quad.value.Valid()) }

    function Text(): string {
      if quad.None? then Joined(groups)
      else if groups == [] then quad.value.Text()
      else Joined(groups) + ":" + quad.value.Text()
    }

    function Bytes(): seq<int>
      requires Valid()
    {
      BytesOf(ValuesOf(groups)) + if quad.Some? then quad.value.Bytes() else []
    }

    function Size(): nat { 2 * |groups| + if quad.Some? then 4 else 0 }
  }
}
