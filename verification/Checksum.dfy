/** The ones'-complement checksum of kernel/src/core/drivers/net/ip.c, and its use in sending and receiving a header. */
module Checksum {
  import opened Machine

  type Word = w: nat | w < 0x1_0000

  const ONES: nat := 0xFFFF
  const SPAN: nat := 0x1_0000_0000          // sums are 32 bits wide
  const HEADER: nat := 20                   // sizeof(struct ip_packet)
  const FIELD: nat := 5                     // header_checksum is word 5 of the header

  /** The i-th 16-bit word, in memory order. */
  function WordAt(data: seq<byte>, i: nat): Word
    requires 2 * i + 1 < |data|
  {
    data[2 * i] as int + 0x100 * (data[2 * i + 1] as int)
  }

  /** The sum of the first `n` words. */
  function WordSum(data: seq<byte>, n: nat): (s: nat)
    requires 2 * n <= |data|
    ensures s <= n * ONES
  {
    if n == 0 then 0 else WordSum(data, n - 1) + WordAt(data, n - 1)
  }

  /** The sum of the data; the last byte of odd data counts as a high byte. */
  function Sum(data: seq<byte>): nat {
    WordSum(data, |data| / 2) + if |data| % 2 == 1 then 0x100 * (data[|data| - 1] as int) else 0
  }

  /** What folding the carries back in leaves: the sum modulo 65535, where only zero folds to zero. */
  function Fold(sum: nat): Word {
    if sum == 0 then 0 else if sum % ONES == 0 then ONES else sum % ONES
  }

  lemma FoldStep(sum: nat)
    requires sum >= 0x1_0000
    ensures var next := sum % 0x1_0000 + sum / 0x1_0000; 0 < next < sum && Fold(next) == Fold(sum)
  {
    var high, low := sum / 0x1_0000, sum % 0x1_0000;
    assert sum == high * ONES + (high + low);
    SameRemainder(high + low, high);
  }

  lemma SameRemainder(x: int, k: int)
    ensures (x + k * ONES) % ONES == x % ONES
  {
  }

  lemma FoldSmall(sum: nat)
    requires sum < 0x1_0000
    ensures Fold(sum) == sum
  {
  }

  /** The fold loop of ip_calculate_checksum. */
  method FoldCarries(total: nat) returns (sum: Word)
    ensures sum == Fold(total)
  {
    var s: nat := total;
    while s / 0x1_0000 != 0
      invariant Fold(s) == Fold(total)
      decreases s
    {
      FoldStep(s);
      s := s % 0x1_0000 + s / 0x1_0000;
    }
    FoldSmall(s);
    return s;
  }

  /** ip_calculate_checksum, for every 16-bit length: the 32-bit sum does not overflow, and the fold loop ends. */
  method Calculate(data: seq<byte>) returns (checksum: Word)
    requires |data| < 0x1_0000
    ensures checksum == ONES - Fold(Sum(data))
  {
    var sum: nat := 0;
    for i := 0 to |data| / 2
      invariant sum == WordSum(data, i)
    {
      NoOverflow(sum, i, WordAt(data, i));
      sum := (sum + WordAt(data, i)) % SPAN;
    }
    if |data| % 2 == 1 {
      NoOverflow(sum, |data| / 2, 0x100 * (data[|data| - 1] as int));
      sum := (sum + 0x100 * (data[|data| - 1] as int)) % SPAN;
    }
    var folded := FoldCarries(sum);
    return ONES - folded;
  }

  lemma NoOverflow(sum: nat, i: nat, w: nat)
    requires i < 0x8000 && sum <= i * ONES && w <= ONES
    ensures (sum + w) % SPAN == sum + w
  {
  }

  /** packet[i] = w, as 16-bit words */
  function WithWord(data: seq<byte>, i: nat, w: Word): (r: seq<byte>)
    requires 2 * i + 1 < |data|
    ensures |r| == |data|
  {
    data[2 * i := w % 0x100][2 * i + 1 := w / 0x100]
  }

  lemma {:induction false} SumWithWord(data: seq<byte>, i: nat, w: Word, n: nat)
    requires 2 * i + 1 < |data| && 2 * n <= |data|
    ensures WordAt(WithWord(data, i, w), i) == w
    ensures WordSum(WithWord(data, i, w), n) == WordSum(data, n) + if i < n then w - WordAt(data, i) else 0
  {
    if n > 0 {
      SumWithWord(data, i, w, n - 1);
      if n - 1 != i {
        assert WordAt(WithWord(data, i, w), n - 1) == WordAt(data, n - 1);
      }
    }
  }

  lemma SumChange(data: seq<byte>, i: nat, w: Word)
    requires |data| % 2 == 0 && 2 * i + 1 < |data|
    ensures WordAt(WithWord(data, i, w), i) == w
    ensures Sum(WithWord(data, i, w)) == Sum(data) - WordAt(data, i) + w
  {
    SumWithWord(data, i, w, |data| / 2);
  }

  /** Storing the checksum in a zeroed word makes the whole sum fold to 0xFFFF. */
  lemma StoredFoldsToOnes(data: seq<byte>, i: nat)
    requires |data| % 2 == 0 && 2 * i + 1 < |data| && WordAt(data, i) == 0
    ensures Fold(Sum(WithWord(data, i, ONES - Fold(Sum(data))))) == ONES
  {
    var s := Sum(data);
    SumChange(data, i, ONES - Fold(s));
    Complement(s);
  }

  lemma Complement(s: nat)
    ensures Fold(s + (ONES - Fold(s))) == ONES
  {
    var q, r := s / ONES, s % ONES;
    assert s == q * ONES + r;
    SameRemainder(0, q + 1);
    SameRemainder(0, q);
    assert s > 0 && r == 0 ==> q > 0;
  }

  /** The words of the header that ip_send_packet builds, with the checksum still zero. */
  function HeaderWords(total: Word, id: Word, protocol: byte, source: nat, destination: nat): seq<Word>
    requires source < SPAN && destination < SPAN
  {
    [0x45, total, id, 0, 64 + 0x100 * (protocol as int), 0,
     source % 0x1_0000, source / 0x1_0000, destination % 0x1_0000, destination / 0x1_0000]
  }

  /** What ip_receive_packet accepts as far as version, header length and checksum are concerned. */
  predicate Accepts(header: seq<byte>)
    requires |header| == HEADER
  {
    header[0] == 0x45 && WordAt(header, FIELD) == ONES - Fold(Sum(WithWord(header, FIELD, 0)))
  }

  /** The words at both ends of a write. */
  lemma WordsAfter(data: seq<byte>, i: nat, w: Word, j: nat)
    requires 2 * i + 1 < |data| && 2 * j + 1 < |data|
    ensures WordAt(WithWord(data, i, w), j) == if j == i then w else WordAt(data, j)
  {
  }

  ghost predicate HasWords(header: seq<byte>, words: seq<Word>, n: nat) {
    |header| == HEADER && |words| == 10 && forall i: nat | i < n && i < 10 :: WordAt(header, i) == words[i]
  }

  method PutWord(packet: array<byte>, i: nat, w: Word)
    requires 2 * i + 1 < packet.Length
    modifies packet
    ensures packet[..] == WithWord(old(packet[..]), i, w)
  {
    packet[2 * i] := w % 0x100;
    packet[2 * i + 1] := w / 0x100;
  }

  /** The assignment to word `k` of the header, the words before it being done. */
  method PutField(packet: array<byte>, k: nat, w: Word, ghost words: seq<Word>)
    requires packet.Length >= HEADER && k < 10 && HasWords(packet[..HEADER], words, k) && w == words[k]
    modifies packet
    ensures HasWords(packet[..HEADER], words, k + 1)
  {
    ghost var before := packet[..HEADER];
    PutWord(packet, k, w);
    assert packet[..HEADER] == WithWord(before, k, w);
    forall i: nat | i < k + 1 ensures WordAt(packet[..HEADER], i) == words[i] {
      WordsAfter(before, k, w, i);
    }
  }

  /** The assignments to the fields of the header, in the order of the struct; addresses are two words each. */
  method FillHeader(packet: array<byte>, total: Word, id: Word, protocol: byte, source: nat, destination: nat)
    requires packet.Length >= HEADER && source < SPAN && destination < SPAN
    modifies packet
    ensures HasWords(packet[..HEADER], HeaderWords(total, id, protocol, source, destination), 10)
  {
    ghost var words := HeaderWords(total, id, protocol, source, destination);
    PutField(packet, 0, 0x45, words);
    PutField(packet, 1, total, words);
    PutField(packet, 2, id, words);
    PutField(packet, 3, 0, words);
    PutField(packet, 4, 64 + 0x100 * (protocol as int), words);
    PutField(packet, 5, 0, words);
    PutField(packet, 6, source % 0x1_0000, words);
    PutField(packet, 7, source / 0x1_0000, words);
    PutField(packet, 8, destination % 0x1_0000, words);
    PutField(packet, 9, destination / 0x1_0000, words);
  }

  method CopyPayload(packet: array<byte>, data: seq<byte>)
    requires packet.Length == HEADER + |data|
    modifies packet
    ensures packet[..HEADER] == old(packet[..HEADER]) && packet[HEADER..] == data
  {
    for k := 0 to |data|
      invariant packet[..HEADER] == old(packet[..HEADER]) && packet[HEADER..HEADER + k] == data[..k]
    {
      packet[HEADER + k] := data[k];
      assert packet[HEADER..HEADER + k + 1] == packet[HEADER..HEADER + k] + [data[k]];
    }
    assert packet[HEADER..] == packet[HEADER..HEADER + |data|];
  }

  /** Calculate the checksum of a header whose field is zero, and store it. */
  method StoreChecksum(packet: array<byte>)
    requires packet.Length >= HEADER && WordAt(packet[..HEADER], FIELD) == 0
    modifies packet
    ensures packet[HEADER..] == old(packet[HEADER..])
    ensures packet[..HEADER] == Completed(old(packet[..HEADER]))
  {
    ghost var before := packet[..HEADER];
    var checksum := Calculate(packet[..HEADER]);
    PutWord(packet, FIELD, checksum);
    assert packet[..HEADER] == WithWord(before, FIELD, checksum);
  }

  /** A header with its checksum stored. */
  function Completed(header: seq<byte>): (r: seq<byte>)
    requires |header| == HEADER
    ensures |r| == HEADER
  {
    WithWord(header, FIELD, ONES - Fold(Sum(header)))
  }

  /** A completed header passes the test of the receiver, and its words sum to all ones. */
  lemma CompletedIsAccepted(header: seq<byte>)
    requires |header| == HEADER && header[0] == 0x45 && WordAt(header, FIELD) == 0
    ensures Accepts(Completed(header)) && Fold(Sum(Completed(header))) == ONES
    ensures forall i: nat | i < 10 && i != FIELD :: WordAt(Completed(header), i) == WordAt(header, i)
  {
    var c := ONES - Fold(Sum(header));
    StoredFoldsToOnes(header, FIELD);
    SumChange(header, FIELD, c);
    assert WithWord(Completed(header), FIELD, 0) == header;
    forall i: nat | i < 10 && i != FIELD ensures WordAt(Completed(header), i) == WordAt(header, i) {
      WordsAfter(header, FIELD, c, i);
    }
  }

  /** ip_send_packet, after the route is found: the packet it hands to the device. */
  method Send(source: nat, destination: nat, id: Word, protocol: byte, data: seq<byte>) returns (packet: array<byte>)
    requires source < SPAN && destination < SPAN && HEADER + |data| < 0x1_0000
    ensures fresh(packet) && packet.Length == HEADER + |data| && packet[HEADER..] == data
    ensures Accepts(packet[..HEADER]) && Fold(Sum(packet[..HEADER])) == ONES
    ensures var words := HeaderWords(HEADER + |data|, id, protocol, source, destination);
      forall i: nat | i < 10 && i != FIELD :: WordAt(packet[..HEADER], i) == words[i]
  {
    ghost var words := HeaderWords(HEADER + |data|, id, protocol, source, destination);
    packet := new byte[HEADER + |data|](i => 0);
    FillHeader(packet, HEADER + |data|, id, protocol, source, destination);
    CopyPayload(packet, data);
    ghost var header := packet[..HEADER];
    FirstByte(header, words);
    CompletedIsAccepted(header);
    StoreChecksum(packet);
  }

  lemma FirstByte(header: seq<byte>, words: seq<Word>)
    requires HasWords(header, words, 10) && words[0] == 0x45 && words[FIELD] == 0
    ensures header[0] == 0x45 && WordAt(header, FIELD) == 0
  {
    var zero: nat := 0;
    assert WordAt(header, zero) == words[zero];
  }

  /** The checks of ip_receive_packet. It zeroes the checksum field of the caller's packet on the way. */
  method Receive(packet: array<byte>) returns (ok: bool)
    requires packet.Length >= HEADER
    modifies packet
    ensures ok <==> Accepts(old(packet[..HEADER]))
    ensures packet[..] == if old(packet[0]) == 0x45 then WithWord(old(packet[..]), FIELD, 0) else old(packet[..])
  {
    if packet[0] / 0x10 * 0x10 != 0x40 || packet[0] % 0x10 * 4 != 20 {
      return false;
    }
    ghost var before := packet[..HEADER];
    var original := WordAt(packet[..HEADER], FIELD);
    PutWord(packet, FIELD, 0);
    assert packet[..HEADER] == WithWord(before, FIELD, 0);
    var calculated := Calculate(packet[..HEADER]);
    return original == calculated;
  }

  /** The test of the receiver is that of RFC 1071, except when the rest of the header alone folds to all ones: then
      the stored field may only be 0, not the other zero 0xFFFF. */
  lemma AcceptsMeans(header: seq<byte>)
    requires |header| == HEADER && header[0] == 0x45
    ensures Accepts(header) <==> (Fold(Sum(header)) == ONES
      && !(WordAt(header, FIELD) == ONES && Fold(Sum(WithWord(header, FIELD, 0))) == ONES))
  {
    var w := WordAt(header, FIELD);
    SumChange(header, FIELD, 0);
    VersionCounts(WithWord(header, FIELD, 0));
    OnlyComplement(Sum(WithWord(header, FIELD, 0)), w);
  }

  lemma OnlyComplement(s: nat, w: Word)
    requires s > 0
    ensures w == ONES - Fold(s) <==> Fold(s + w) == ONES && !(w == ONES && Fold(s) == ONES)
  {
    var q, r := s / ONES, s % ONES;
    assert s == q * ONES + r;
    SameRemainder(r + w, q);
    if r + w >= ONES {
      SameRemainder(r + w - ONES, 1);
    }
  }

  /** A header with version byte 0x45 does not sum to zero. */
  lemma VersionCounts(header: seq<byte>)
    requires |header| == HEADER && header[0] == 0x45
    ensures Sum(header) > 0
  {
    PartialSum(header, 1, 10);
  }

  lemma {:induction false} PartialSum(data: seq<byte>, m: nat, n: nat)
    requires m <= n && 2 * n <= |data|
    ensures WordSum(data, m) <= WordSum(data, n)
  {
    if m < n {
      PartialSum(data, m, n - 1);
    }
  }

  /** Changing one word of an accepted header is noticed, except a change between 0 and 0xFFFF outside the field. */
  lemma ChangeIsNoticed(header: seq<byte>, i: nat, w: Word)
    requires |header| == HEADER && Accepts(header) && i < 10 && w != WordAt(header, i)
    requires WithWord(header, i, w)[0] == 0x45
    ensures Accepts(WithWord(header, i, w)) <==>
      (i != FIELD && ((WordAt(header, i) == 0 && w == ONES) || (WordAt(header, i) == ONES && w == 0)))
  {
    var changed := WithWord(header, i, w);
    WordsAfter(header, i, w, FIELD);
    if i == FIELD {
      assert WithWord(changed, FIELD, 0) == WithWord(header, FIELD, 0);
    } else {
      var zeroed := WithWord(header, FIELD, 0);
      assert WithWord(changed, FIELD, 0) == WithWord(zeroed, i, w);
      WordsAfter(header, FIELD, 0, i);
      SumChange(zeroed, i, w);
      VersionCounts(zeroed);
      VersionCounts(WithWord(zeroed, i, w));
      SameFold(Sum(zeroed), Sum(WithWord(zeroed, i, w)));
    }
  }

  lemma SameFold(s: nat, t: nat)
    requires s > 0 && t > 0 && s != t && s - t <= ONES && t - s <= ONES
    ensures Fold(s) == Fold(t) <==> s - t == ONES || t - s == ONES
  {
    var k := s / ONES - t / ONES;
    assert s - t == k * ONES + (s % ONES - t % ONES);
    if s - t == ONES {
      SameRemainder(t, 1);
    } else if t - s == ONES {
      SameRemainder(s, 1);
    }
  }
}
