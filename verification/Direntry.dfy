/** Directory slots: a name is scattered over a head slot and a linked chain of continuation slots. */
module Direntry {
  import opened Bytes
  import Utf8

  const SLOT := 32
  const HEAD_UNITS := 11
  const SLOT_UNITS := 15

  datatype InodeName = InodeName(name: seq<Byte>, number: nat)

  // ---------------------------------------------------------------- slots

  /**
   * The 32 bytes of a slot, read both as a continuation (struct dtslot: next, text) and as the head of a leaf entry
   * (struct ldtentry: number, headNext, namlen, headText).
   */
  datatype SlotFields = SlotFields(next: int, text: seq<Unit>, number: nat, headNext: int, namlen: nat,
                                   headText: seq<Unit>)

  type Slot = s: SlotFields |
      |s.text| == SLOT_UNITS && |s.headText| == HEAD_UNITS && s.namlen < 0x100
      && -0x80 <= s.next < 0x80 && -0x80 <= s.headNext < 0x80
    witness SlotFields(-1, seq(SLOT_UNITS, _ => 0), 0, -1, 0, seq(HEAD_UNITS, _ => 0))

  function Units(m: seq<Byte>, at: nat, n: nat): (r: seq<Unit>)
    requires at + 2 * n <= |m|
    ensures |r| == n
  {
    seq(n, i requires 0 <= i < n => Le16(m, at + 2 * i))
  }

  function SlotAt(m: seq<Byte>, at: nat): Slot
    requires at + SLOT <= |m|
  {
    SlotFields(I8(m, at), Units(m, at + 2, SLOT_UNITS),
               Le32(m, at), I8(m, at + 4), U8(m, at + 5), Units(m, at + 6, HEAD_UNITS))
  }

  /** The slot array over a page or over the root in the inode. */
  function SlotsOf(m: seq<Byte>): (r: seq<Slot>)
    ensures |r| == |m| / SLOT
  {
    seq(|m| / SLOT, k requires 0 <= k < |m| / SLOT => SlotAt(m, k * SLOT))
  }

  /** NDTLEAF: the slots that an entry with a name of klen units takes. */
  function SlotsFor(klen: nat): nat {
    (4 + klen + 14) / 15
  }

  // ---------------------------------------------------------------- UniStrncpy

  const SIZE_T := 0x1_0000_0000_0000_0000

  function Zeros(n: nat): (r: seq<Unit>)
    ensures |r| == n
  {
    seq(n, _ => 0)
  }

  /** n units: the source up to its terminator, then zeros. */
  function Padded(src: seq<Unit>, n: nat): (r: seq<Unit>)
    requires n <= |src|
    ensures |r| == n
  {
    var text := Utf8.UntilZero(src[..n], 0);
    text + Zeros(n - |text|)
  }

  /** A size_t counter that is decremented by its own test: its value afterwards. */
  function Decrement(n: nat): nat {
    if n == 0 then SIZE_T - 1 else n - 1
  }

  method UniStrncpy(dest: array<Unit>, at: nat, src: seq<Unit>, len: nat)
    requires len <= |src| && len < SIZE_T && at + len <= dest.Length
    modifies dest
    ensures dest[..] == old(dest[..at]) + Padded(src, len) + old(dest[at + len..])
  {
    var n, i := CopyText(dest, at, src, len);
    n := (n + 1) % SIZE_T;
    PadZeros(dest, at + i, n);
  }

  /** The copying loop: up to the terminator or until the counter runs out, which then wraps. */
  method CopyText(dest: array<Unit>, at: nat, src: seq<Unit>, len: nat) returns (n: nat, i: nat)
    requires len <= |src| && len < SIZE_T && at + len <= dest.Length
    modifies dest
    ensures var text := Utf8.UntilZero(src[..len], 0);
      && i == |text| && (n + 1) % SIZE_T == len - |text|
      && dest[..] == old(dest[..at]) + text + old(dest[at + |text|..])
  {
    ghost var text, was := Utf8.UntilZero(src[..len], 0), dest[..];
    n, i := len, 0;
    var more := n != 0;
    n := Decrement(n);
    while more && src[i] != 0
      invariant 0 <= i <= |text|
      invariant if more then i < len && n == len - i - 1 else i == len && n == SIZE_T - 1
      invariant dest[..] == was[..at] + src[..i] + was[at + i..]
      decreases len - i, more
    {
      TextGoesOn(src[..len], i);
      dest[at + i] := src[i];
      assert dest[..] == was[..at] + src[..i + 1] + was[at + i + 1..];
      i := i + 1;
      more := n != 0;
      n := Decrement(n);
    }
    TextEnds(src[..len], i);
    Utf8.UntilZeroIs(src[..len], 0);
    assert src[..i] == src[..len][..i] == text;
  }

  /** The padding loop: zeros until the counter runs out. */
  method PadZeros(dest: array<Unit>, at: nat, count: nat)
    requires at + count <= dest.Length
    modifies dest
    ensures dest[..] == old(dest[..at]) + Zeros(count) + old(dest[at + count..])
  {
    var n, i := count, 0;
    var more := n != 0;
    n := Decrement(n);
    while more
      invariant 0 <= i <= count && more == (i < count) && (more ==> n == count - i - 1)
      invariant forall k :: 0 <= k < dest.Length ==> dest[k] == if at <= k < at + i then 0 else old(dest[k])
      decreases count - i
    {
      dest[at + i] := 0;
      i := i + 1;
      more := n != 0;
      n := Decrement(n);
    }
  }

  lemma TextGoesOn(s: seq<Unit>, i: nat)
    requires i < |s| && s[i] != 0 && i <= |Utf8.UntilZero(s, 0)|
    ensures i < |Utf8.UntilZero(s, 0)|
  {
    TextEnds(s, i);
  }

  lemma {:induction false} TextEnds(s: seq<Unit>, i: nat)
    requires i <= |Utf8.UntilZero(s, 0)| && i <= |s|
    ensures i == |s| || s[i] == 0 ==> i == |Utf8.UntilZero(s, 0)|
    ensures i < |s| && i == |Utf8.UntilZero(s, 0)| ==> s[i] == 0
  {
    if i > 0 {
      TextEnds(s[1..], i - 1);
    }
  }

  // ---------------------------------------------------------------- the chain of continuation slots

  ghost function Unseen(m: seq<Slot>, seen: seq<nat>): set<nat> {
    set k: nat | k < |m| && k !in seen
  }

  lemma UnseenShrinks(m: seq<Slot>, seen: seq<nat>, next: nat)
    requires next < |m| && next !in seen
    ensures Unseen(m, seen + [next]) < Unseen(m, seen)
  {
    assert next in Unseen(m, seen) && next !in Unseen(m, seen + [next]);
  }

  /** The slots visited from next on, after those in seen: until the chain ends, leaves the page or comes back. */
  function Chain(m: seq<Slot>, next: int, seen: seq<nat>): (r: seq<nat>)
    requires next !in seen
    ensures seen <= r
    decreases Unseen(m, seen)
  {
    if !(0 <= next < |m|) then seen
    else
      var here := seen + [next];
      UnseenShrinks(m, seen, next);
      if m[next].next in here then here else Chain(m, m[next].next, here)
  }

  ghost predicate DistinctSlots(m: seq<Slot>, c: seq<nat>) {
    (forall i :: 0 <= i < |c| ==> c[i] < |m|) && forall i, j :: 0 <= i < j < |c| ==> c[i] != c[j]
  }

  /** No slot is visited twice. */
  lemma {:induction false} ChainDistinct(m: seq<Slot>, next: int, seen: seq<nat>)
    requires next !in seen && DistinctSlots(m, seen)
    ensures DistinctSlots(m, Chain(m, next, seen))
    decreases Unseen(m, seen)
  {
    if 0 <= next < |m| {
      var here := seen + [next];
      if m[next].next !in here {
        UnseenShrinks(m, seen, next);
        ChainDistinct(m, m[next].next, here);
      }
    }
  }

  /** Link by link, as far as the slots go: it stops only where a link leaves the slots or leads to a visited one. */
  lemma {:induction false} ChainGoesOn(m: seq<Slot>, next: int, seen: seq<nat>)
    requires next !in seen
    ensures var c := Chain(m, next, seen);
      && (|c| > |seen| <==> 0 <= next < |m|) && (|c| > |seen| ==> c[|seen|] == next)
      && (forall i :: |seen| <= i < |c| ==> c[i] < |m|)
      && (forall i :: |seen| <= i < |c| - 1 ==> m[c[i]].next == c[i + 1])
      && (|c| > |seen| ==>
        var last := m[c[|c| - 1]].next; last in c || !(0 <= last < |m|))
    decreases Unseen(m, seen)
  {
    if 0 <= next < |m| {
      var here := seen + [next];
      if m[next].next !in here {
        UnseenShrinks(m, seen, next);
        ChainGoesOn(m, m[next].next, here);
      }
    }
  }

  lemma {:induction false} DistinctBounded(c: seq<nat>, n: nat)
    requires forall i :: 0 <= i < |c| ==> c[i] < n
    requires forall i, j :: 0 <= i < j < |c| ==> c[i] != c[j]
    ensures |c| <= n
  {
    if c != [] {
      if n - 1 in c {
        var k :| 0 <= k < |c| && c[k] == n - 1;
        var rest := c[..k] + c[k + 1..];
        DistinctBounded(rest, n - 1);
      } else {
        assert c[0] < n;
        forall i | 0 <= i < |c| ensures c[i] < n - 1 {
          assert c[i] in c;
        }
        DistinctBounded(c, n - 1);
      }
    }
  }

  /** Whatever the slots hold, a page's 128 slots bound the walk. */
  lemma ChainTerminates(m: seq<Slot>, next: int)
    ensures |Chain(m, next, [])| <= |m|
  {
    ChainDistinct(m, next, []);
    DistinctBounded(Chain(m, next, []), |m|);
  }

  // ---------------------------------------------------------------- the name buffer

  /** The chain of the entry in slot head. */
  function EntryChain(m: seq<Slot>, head: nat): seq<nat>
    requires head < |m|
  {
    Chain(m, m[head].headNext, [])
  }

  /** How many of namlen units the head and n continuation slots hold. */
  function Copies(namlen: nat, n: nat): nat {
    Min(namlen, HEAD_UNITS + n * SLOT_UNITS)
  }

  /** What has been written when the head and the slots in rec are copied, one behind the other. */
  function Copied(m: seq<Slot>, head: nat, rec: seq<nat>): (r: seq<Unit>)
    requires head < |m| && forall i :: 0 <= i < |rec| ==> rec[i] < |m|
    ensures |r| == Copies(m[head].namlen, |rec|)
  {
    var namlen, n := m[head].namlen, |rec| - 1;
    if rec == [] then Padded(m[head].headText, Min(namlen, HEAD_UNITS))
    else Copied(m, head, rec[..n]) + Padded(m[rec[n]].text, Copies(namlen, n + 1) - Copies(namlen, n))
  }

  /** Everything get_direntry writes for the entry: a prefix of its namlen units. */
  function Written(m: seq<Slot>, head: nat): (r: seq<Unit>)
    requires head < |m|
    ensures |r| <= m[head].namlen
  {
    ChainDistinct(m, m[head].headNext, []);
    Copied(m, head, EntryChain(m, head))
  }

  /** The entry read, when junk was in the name buffer before. */
  function EntryFrom(m: seq<Slot>, head: nat, junk: seq<Unit>): InodeName
    requires head < |m| && |junk| == m[head].namlen
  {
    var w := Written(m, head);
    InodeName(Utf8.Fit(Utf8.UntilZero(w + junk[|w|..] + [0], 0), 8 * Utf8.JFS_PATH_MAX - 1), m[head].number)
  }

  /** e can be read from slot head: for some initial content of the buffer. */
  ghost predicate IsEntry(m: seq<Slot>, head: nat, e: InodeName)
    requires head < |m|
  {
    exists junk :: |junk| == m[head].namlen && e == EntryFrom(m, head, junk)
  }

  /** The walk never leaves the slots it was given: always so on a full page, where an int8_t index fits. */
  ghost predicate Inside(m: seq<Slot>, head: nat)
    requires head < |m|
  {
    && m[head].headNext < |m|
    && forall k :: k in EntryChain(m, head) && k < |m| ==> m[k].next < |m|
  }

  lemma PageIsInside(m: seq<Slot>, head: nat)
    requires head < |m| && |m| >= 128
    ensures Inside(m, head)
  {
  }

  /** The buffer when the head and the slots in rec have been copied: the rest is still junk, then the terminator. */
  ghost predicate Holds(name: seq<Unit>, m: seq<Slot>, head: nat, rec: seq<nat>, junk: seq<Unit>)
    requires head < |m| && |junk| == m[head].namlen
    requires forall i :: 0 <= i < |rec| ==> rec[i] < |m|
  {
    var w := Copied(m, head, rec);
    name == w + junk[|w|..] + [0]
  }

  lemma HoldsHead(name: seq<Unit>, before: seq<Unit>, m: seq<Slot>, head: nat, junk: seq<Unit>)
    requires head < |m| && |junk| == m[head].namlen && before == junk + [0]
    requires var len := Min(m[head].namlen, HEAD_UNITS);
      name == Padded(m[head].headText, len) + before[len..]
    ensures Holds(name, m, head, [], junk)
  {
    var len := Min(m[head].namlen, HEAD_UNITS);
    assert before[len..] == junk[len..] + [0];
  }

  lemma HoldsNext(name: seq<Unit>, before: seq<Unit>, m: seq<Slot>, head: nat, rec: seq<nat>, k: nat, junk: seq<Unit>,
                  n: nat, len: nat)
    requires head < |m| && |junk| == m[head].namlen && k < |m|
    requires forall i :: 0 <= i < |rec| ==> rec[i] < |m|
    requires Holds(before, m, head, rec, junk)
    requires n == Copies(|junk|, |rec|) && n + len == Copies(|junk|, |rec| + 1)
    requires name == before[..n] + Padded(m[k].text, len) + before[n + len..]
    ensures Holds(name, m, head, rec + [k], junk)
  {
    CopiedAppend(m, head, rec, k);
    Splice(name, before, Copied(m, head, rec), Padded(m[k].text, len), junk);
  }

  lemma Splice(name: seq<Unit>, before: seq<Unit>, w: seq<Unit>, p: seq<Unit>, junk: seq<Unit>)
    requires |w| + |p| <= |junk| && before == w + junk[|w|..] + [0]
    requires name == before[..|w|] + p + before[|w| + |p|..]
    ensures name == (w + p) + junk[|w + p|..] + [0]
  {
    assert before[..|w|] == w;
    assert before[|w| + |p|..] == junk[|w| + |p|..] + [0];
  }

  lemma ChainStep(m: seq<Slot>, head: nat, next: nat, rec: seq<nat>)
    requires head < |m| && Inside(m, head) && next < |m| && next !in rec && DistinctSlots(m, rec)
    requires Chain(m, next, rec) == EntryChain(m, head)
    ensures DistinctSlots(m, rec + [next]) && m[next].next < |m|
    ensures var here := rec + [next];
      if m[next].next in here then here == EntryChain(m, head)
      else Chain(m, m[next].next, here) == EntryChain(m, head)
  {
    assert (rec + [next])[|rec|] == next;
    assert next in EntryChain(m, head);
  }

  lemma EntryRead(name: seq<Unit>, m: seq<Slot>, head: nat, rec: seq<nat>, junk: seq<Unit>)
    requires head < |m| && |junk| == m[head].namlen && DistinctSlots(m, rec)
    requires Holds(name, m, head, rec, junk) && rec == EntryChain(m, head)
    ensures 0 in name
    ensures IsEntry(m, head, InodeName(Utf8.Fit(Utf8.UntilZero(name, 0), 8 * Utf8.JFS_PATH_MAX - 1), m[head].number))
  {
    assert name[|name| - 1] == 0;
    assert EntryFrom(m, head, junk).number == m[head].number;
  }

  /** The loop body up to its cycle test: one continuation slot goes to the buffer. */
  method CopySlot(name: array<Unit>, m: seq<Slot>, head: nat, ghost rec: seq<nat>, ghost junk: seq<Unit>, k: nat,
                  n: nat, namlen: nat, len: nat)
    returns (namlen': nat, len': nat)
    requires head < |m| && |junk| == m[head].namlen && k < |m|
    requires forall i :: 0 <= i < |rec| ==> rec[i] < |m|
    requires Holds(name[..], m, head, rec, junk)
    requires len <= namlen <= |junk| && n == |junk| - (namlen - len) == Copies(|junk|, |rec|)
    modifies name
    ensures Holds(name[..], m, head, rec + [k], junk)
    ensures len' <= namlen' <= |junk| && n + len' == |junk| - (namlen' - len') == Copies(|junk|, |rec| + 1)
  {
    ghost var before := name[..];
    namlen' := namlen - len;
    len' := Min(namlen', SLOT_UNITS);
    UniStrncpy(name, n, m[k].text, len');
    HoldsNext(name[..], before, m, head, rec, k, junk, n, len');
  }

  /** A new buffer, uninitialised apart from its terminator, takes the units of the head slot. */
  method CopyHead(m: seq<Slot>, head: nat) returns (name: array<Unit>, ghost junk: seq<Unit>, namlen: nat, len: nat)
    requires head < |m|
    ensures fresh(name) && namlen == |junk| == m[head].namlen && len == Copies(namlen, 0)
    ensures Holds(name[..], m, head, [], junk)
  {
    namlen := m[head].namlen;
    name := new Unit[namlen + 1];
    junk := name[..namlen];
    name[namlen] := 0;
    len := Min(namlen, HEAD_UNITS);
    ghost var before := name[..];
    UniStrncpy(name, 0, m[head].headText, len);
    HoldsHead(name[..], before, m, head, junk);
  }

  /** Reads one entry. */
  method GetDirentry(m: seq<Slot>, head: nat) returns (e: InodeName)
    requires head < |m| && Inside(m, head)
    ensures IsEntry(m, head, e)
  {
    var name: array<Unit>, junk, namlen: nat, len: nat := CopyHead(m, head);
    var next, n := m[head].headNext, len;
    var rec: seq<nat> := [];
    while next >= 0
      invariant DistinctSlots(m, rec) && Holds(name[..], m, head, rec, junk)
      invariant len <= namlen <= |junk| && n == |junk| - (namlen - len)
      invariant n == Copies(|junk|, |rec|)
      invariant next !in rec && next < |m| && Chain(m, next, rec) == EntryChain(m, head)
      decreases Unseen(m, rec)
    {
      UnseenShrinks(m, rec, next);
      ChainStep(m, head, next, rec);
      namlen, len := CopySlot(name, m, head, rec, junk, next, n, namlen, len);
      rec := rec + [next];
      next := m[next].next;
      if next in rec {
        break;
      }
      n := n + len;
    }
    EntryRead(name[..], m, head, rec, junk);
    var text := Utf8.ToStdString(name[..]);
    e := InodeName(text, m[head].number);
  }

  // ---------------------------------------------------------------- well-formed entries

  function NextLink(chain: seq<nat>, i: nat): int {
    if i + 1 < |chain| then chain[i + 1] else -1
  }

  /** chain is linked from the head on, through distinct slots, to a -1. */
  ghost predicate LinkedChain(m: seq<Slot>, head: nat, chain: seq<nat>)
    requires head < |m|
  {
    && DistinctSlots(m, chain)
    && m[head].headNext == (if chain == [] then -1 else chain[0])
    && forall i :: 0 <= i < |chain| ==> m[chain[i]].next == NextLink(chain, i)
  }

  /** Head and chain hold the pieces of w in order. */
  ghost predicate HoldsPieces(m: seq<Slot>, head: nat, chain: seq<nat>, w: seq<Unit>)
    requires head < |m| && DistinctSlots(m, chain)
  {
    && |w| == m[head].namlen && |chain| == SlotsFor(|w|) - 1
    && m[head].headText[..Copies(|w|, 0)] == w[..Copies(|w|, 0)]
    && forall i :: 0 <= i < |chain| ==>
      m[chain[i]].text[..Copies(|w|, i + 1) - Copies(|w|, i)] == w[Copies(|w|, i)..Copies(|w|, i + 1)]
  }

  /** The entry in slot head stores the name w over itself and the slots of chain, as the file system lays it out. */
  ghost predicate Stores(m: seq<Slot>, head: nat, chain: seq<nat>, w: seq<Unit>) {
    head < |m| && Utf8.NulFree(w) && LinkedChain(m, head, chain) && HoldsPieces(m, head, chain, w)
  }

  lemma {:induction false} ChainFollowsLinks(m: seq<Slot>, head: nat, chain: seq<nat>, i: nat)
    requires head < |m| && LinkedChain(m, head, chain) && i < |chain|
    ensures chain[i] !in chain[..i] && Chain(m, chain[i], chain[..i]) == chain
    decreases |chain| - i
  {
    TakeNext(chain, i);
    if i + 1 < |chain| {
      ChainFollowsLinks(m, head, chain, i + 1);
      ChainUnfolds(m, chain[i], chain[..i], chain[i + 1]);
    } else {
      assert chain[..i + 1] == chain;
      ChainUnfolds(m, chain[i], chain[..i], -1);
    }
  }

  lemma ChainUnfolds(m: seq<Slot>, k: nat, seen: seq<nat>, next: int)
    requires k < |m| && k !in seen && m[k].next == next && next !in seen + [k]
    ensures Chain(m, k, seen) == if next < 0 then seen + [k] else Chain(m, next, seen + [k])
  {
  }

  lemma PaddedOf(src: seq<Unit>, n: nat)
    requires n <= |src| && Utf8.NulFree(src[..n])
    ensures Padded(src, n) == src[..n]
  {
    Utf8.UntilZeroIs(src[..n], 0);
  }

  lemma PieceIs(m: seq<Slot>, head: nat, chain: seq<nat>, w: seq<Unit>, i: nat)
    requires head < |m| && DistinctSlots(m, chain) && HoldsPieces(m, head, chain, w) && Utf8.NulFree(w) && i < |chain|
    ensures var a, b := Copies(|w|, i), Copies(|w|, i + 1);
      Padded(m[chain[i]].text, b - a) == w[a..b]
  {
    PaddedOf(m[chain[i]].text, Copies(|w|, i + 1) - Copies(|w|, i));
  }

  lemma CopiedStep(m: seq<Slot>, head: nat, rec: seq<nat>, k: nat, w: seq<Unit>)
    requires head < |m| && k < |m| && |w| == m[head].namlen && forall i :: 0 <= i < |rec| ==> rec[i] < |m|
    requires Copied(m, head, rec) == w[..Copies(|w|, |rec|)]
    requires var a, b := Copies(|w|, |rec|), Copies(|w|, |rec| + 1);
      Padded(m[k].text, b - a) == w[a..b]
    ensures Copied(m, head, rec + [k]) == w[..Copies(|w|, |rec| + 1)]
  {
    CopiedAppend(m, head, rec, k);
    JoinSlices(w, Copies(|w|, |rec|), Copies(|w|, |rec| + 1));
  }

  lemma CopiedAppend(m: seq<Slot>, head: nat, rec: seq<nat>, k: nat)
    requires head < |m| && k < |m| && forall i :: 0 <= i < |rec| ==> rec[i] < |m|
    ensures var namlen, n := m[head].namlen, |rec|;
      Copied(m, head, rec + [k]) == Copied(m, head, rec) + Padded(m[k].text, Copies(namlen, n + 1) - Copies(namlen, n))
  {
    assert (rec + [k])[..|rec|] == rec;
  }

  lemma TakeNext<T>(s: seq<T>, i: nat)
    requires i < |s|
    ensures s[..i + 1] == s[..i] + [s[i]]
  {
  }

  lemma JoinSlices<T>(w: seq<T>, a: nat, b: nat)
    requires a <= b <= |w|
    ensures w[..a] + w[a..b] == w[..b]
  {
  }

  lemma HeadIs(m: seq<Slot>, head: nat, w: seq<Unit>)
    requires head < |m| && |w| == m[head].namlen && Utf8.NulFree(w)
    requires m[head].headText[..Copies(|w|, 0)] == w[..Copies(|w|, 0)]
    ensures Copied(m, head, []) == w[..Copies(|w|, 0)]
  {
    PaddedOf(m[head].headText, Copies(|w|, 0));
  }

  lemma {:induction false} CopiedIs(m: seq<Slot>, head: nat, chain: seq<nat>, w: seq<Unit>, i: nat)
    requires head < |m| && DistinctSlots(m, chain) && HoldsPieces(m, head, chain, w) && Utf8.NulFree(w) && i <= |chain|
    ensures Copied(m, head, chain[..i]) == w[..Copies(|w|, i)]
  {
    if i == 0 {
      HeadIs(m, head, w);
    } else {
      var rec := chain[..i - 1];
      TakeNext(chain, i - 1);
      CopiedIs(m, head, chain, w, i - 1);
      PieceIs(m, head, chain, w, i - 1);
      CopiedStep(m, head, rec, chain[i - 1], w);
    }
  }

  lemma EntryChainIs(m: seq<Slot>, head: nat, chain: seq<nat>, w: seq<Unit>)
    requires Stores(m, head, chain, w)
    ensures EntryChain(m, head) == chain
  {
    if chain != [] {
      ChainFollowsLinks(m, head, chain, 0);
      assert chain[..0] == [];
    }
  }

  lemma WrittenIs(m: seq<Slot>, head: nat, chain: seq<nat>, w: seq<Unit>)
    requires Stores(m, head, chain, w)
    ensures Written(m, head) == w
  {
    EntryChainIs(m, head, chain, w);
    CopiedIs(m, head, chain, w, |chain|);
    assert chain[..|chain|] == chain && w[..Copies(|w|, |chain|)] == w;
  }

  lemma WholeFrom(m: seq<Slot>, head: nat, w: seq<Unit>, junk: seq<Unit>)
    requires head < |m| && |junk| == |w| == m[head].namlen && Utf8.NulFree(w) && Written(m, head) == w
    ensures EntryFrom(m, head, junk) == InodeName(Utf8.EncAll(w), m[head].number)
  {
    assert w + junk[|w|..] + [0] == w + [0] + [];
    Utf8.NamesConvertWhole(w, []);
  }

  /**
   * A stored name is read back whole, whatever the buffer held before, by visiting exactly the NDTLEAF - 1
   * continuation slots it occupies.
   */
  lemma StoredNameIsRead(m: seq<Slot>, head: nat, chain: seq<nat>, w: seq<Unit>, e: InodeName)
    requires Stores(m, head, chain, w) && IsEntry(m, head, e)
    ensures EntryChain(m, head) == chain && |chain| == SlotsFor(|w|) - 1
    ensures e == InodeName(Utf8.EncAll(w), m[head].number)
  {
    EntryChainIs(m, head, chain, w);
    WrittenIs(m, head, chain, w);
    var junk :| |junk| == m[head].namlen && e == EntryFrom(m, head, junk);
    WholeFrom(m, head, w, junk);
  }
}
