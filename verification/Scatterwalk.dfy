/**
 Chained scatterlists (crypto/scatterwalk.h over linux/scatterlist.h).

 Entries live in one memory; a pointer is an index into it and 0 is the null pointer.  The
 successor of an entry is the one beside it, unless that has length 0: then its page link is
 a pointer to the next list.
 */
module Scatterwalk {
  import opened Words

  /** page_link is a pointer with two flag bits below it. */
  datatype Entry = Entry(link: nat, isChain: bool, isLast: bool, offset: nat, length: nat)

  const NULL: nat := 0

  /** scatterwalk_sg_next */
  function SgNext(mem: seq<Entry>, sg: nat): nat
    requires sg < |mem| && (!mem[sg].isLast ==> sg + 1 < |mem|)
  {
    if mem[sg].isLast then NULL
    else if mem[sg + 1].length != 0 then sg + 1
    else mem[sg + 1].link
  }

  // ----- lists -----

  /** An entry whose successor is `next` (NULL at the end of the list). */
  ghost predicate Link(mem: seq<Entry>, sg: nat, next: nat) {
    && 0 < sg < |mem|
    && (!mem[sg].isLast ==> sg + 1 < |mem|)
    && SgNext(mem, sg) == next
    && (next == NULL <==> mem[sg].isLast)
  }

  function Second(path: seq<nat>): nat { if |path| > 1 then path[1] else NULL }

  /** The traversal from path[0] visits exactly `path` and ends. */
  ghost predicate ListAt(mem: seq<Entry>, path: seq<nat>) {
    path != [] && Link(mem, path[0], Second(path)) && (|path| > 1 ==> ListAt(mem, path[1..]))
  }

  /** The data bytes of the entries of a path. */
  function TotalBytes(mem: seq<Entry>, path: seq<nat>): nat {
    if path == [] then 0
    else (if path[0] < |mem| then mem[path[0]].length else 0) + TotalBytes(mem, path[1..])
  }

  /** The traversal that starts at an entry is unique, so a list cannot run into itself. */
  lemma {:induction false} TraversalUnique(mem: seq<Entry>, path: seq<nat>, path': seq<nat>)
    requires ListAt(mem, path) && ListAt(mem, path') && path[0] == path'[0]
    ensures path == path'
    decreases |path|
  {
    if |path| > 1 && |path'| > 1 {
      TraversalUnique(mem, path[1..], path'[1..]);
      assert path == [path[0]] + path[1..] && path' == [path'[0]] + path'[1..];
    }
  }

  /** No entry of the list lies in [lo, hi), nor does the slot that its traversal reads beside one. */
  ghost predicate Apart(path: seq<nat>, lo: nat, hi: nat) {
    && (forall i :: 0 <= i < |path| ==> !(lo <= path[i] < hi))
    && (forall i :: 0 <= i < |path| - 1 ==> !(lo <= path[i] + 1 < hi))
  }

  /** Writes elsewhere leave a list and its length alone. */
  lemma {:induction false} ListFrame(mem: seq<Entry>, mem': seq<Entry>, path: seq<nat>, lo: nat, hi: nat)
    requires ListAt(mem, path) && Apart(path, lo, hi) && |mem'| == |mem|
    requires forall k :: 0 <= k < |mem| && !(lo <= k < hi) ==> mem'[k] == mem[k]
    ensures ListAt(mem', path)
    ensures TotalBytes(mem', path) == TotalBytes(mem, path)
    decreases |path|
  {
    assert Link(mem', path[0], Second(path));
    if |path| > 1 {
      assert forall i :: 0 <= i < |path[1..]| ==> path[1..][i] == path[i + 1];
      ListFrame(mem, mem', path[1..], lo, hi);
    } else {
      assert path[1..] == [];
    }
  }

  /** A list may be extended in front by an entry that leads to it. */
  lemma Prepend(mem: seq<Entry>, sg: nat, path: seq<nat>)
    requires ListAt(mem, path) && Link(mem, sg, path[0])
    ensures ListAt(mem, [sg] + path)
    ensures TotalBytes(mem, [sg] + path) == mem[sg].length + TotalBytes(mem, path)
  {
    assert ([sg] + path)[1..] == path;
  }

  // ----- the head array -----

  /** The head's data entries: all of its `num` slots but the last, which is for the chain. */
  function Heads(head: nat, num: nat): seq<nat>
    decreases num
  {
    if num < 2 then [] else [head] + Heads(head + 1, num - 1)
  }

  ghost predicate HeadReady(mem: seq<Entry>, head: nat, num: nat) {
    && num >= 2 && 0 < head && head + num <= |mem|
    && (forall k :: head <= k < head + num - 1 ==> !mem[k].isLast)
    && (forall k :: head < k < head + num - 1 ==> mem[k].length > 0)
  }

  lemma TotalCons(mem: seq<Entry>, sg: nat, path: seq<nat>)
    requires sg < |mem|
    ensures TotalBytes(mem, [sg] + path) == mem[sg].length + TotalBytes(mem, path)
  {
    assert ([sg] + path)[1..] == path;
  }

  lemma {:induction false} TotalConcat(mem: seq<Entry>, xs: seq<nat>, ys: seq<nat>)
    ensures TotalBytes(mem, xs + ys) == TotalBytes(mem, xs) + TotalBytes(mem, ys)
    decreases |xs|
  {
    if xs == [] {
      assert xs + ys == ys;
    } else {
      assert (xs + ys)[1..] == xs[1..] + ys;
      TotalConcat(mem, xs[1..], ys);
    }
  }

  /** With its last slot chained to `path`, the head's traversal is its data entries followed by `path`. */
  lemma {:induction false} HeadChained(mem: seq<Entry>, head: nat, num: nat, path: seq<nat>)
    requires HeadReady(mem, head, num) && ListAt(mem, path)
    requires mem[head + num - 1].length == 0 && mem[head + num - 1].link == path[0]
    ensures ListAt(mem, Heads(head, num) + path)
    decreases num
  {
    if num == 2 {
      assert Link(mem, head, path[0]);
      Prepend(mem, head, path);
      assert Heads(head, 2) == [head] + Heads(head + 1, 1) == [head];
    } else {
      var tail := Heads(head + 1, num - 1);
      HeadChained(mem, head + 1, num - 1, path);
      assert (tail + path)[0] == head + 1;
      assert Link(mem, head, head + 1);
      Prepend(mem, head, tail + path);
      assert Heads(head, num) + path == [head] + (tail + path);
    }
  }

  /** Bytes depend only on the lengths of the entries. */
  lemma {:induction false} HeadBytesFrame(mem: seq<Entry>, mem': seq<Entry>, head: nat, num: nat)
    requires head + num <= |mem| == |mem'|
    requires forall k :: head <= k < head + num - 1 ==> mem'[k].length == mem[k].length
    ensures TotalBytes(mem', Heads(head, num)) == TotalBytes(mem, Heads(head, num))
    decreases num
  {
    if num >= 2 {
      var tail := Heads(head + 1, num - 1);
      HeadBytesFrame(mem, mem', head + 1, num - 1);
      TotalCons(mem, head, tail);
      TotalCons(mem', head, tail);
    }
  }

  // ----- chaining, as a function of the memory -----

  /** The entries still to visit after the first one has been merged into the head, or all of them. */
  function Remaining(path: seq<nat>, chain: bool): seq<nat>
    requires path != []
  {
    if chain then path[1..] else path
  }

  /** The head's length after the merge, an unsigned int. */
  function Merged(mem: seq<Entry>, head: nat, sg: nat, chain: bool): nat
    requires head < |mem| && sg < |mem|
  {
    if chain then (mem[head].length + mem[sg].length) % UINT32_MODULUS else mem[head].length
  }

  /** The memory after scatterwalk_crypto_chain. */
  function AfterChain(mem: seq<Entry>, head: nat, sg: nat, chain: bool, num: nat): seq<Entry>
    requires num >= 1 && head + num <= |mem| && sg < |mem| && (!mem[sg].isLast ==> sg + 1 < |mem|)
    requires !(head <= sg < head + num)
  {
    var mem1 := mem[head := mem[head].(length := Merged(mem, head, sg, chain))];
    var s := if chain then SgNext(mem1, sg) else sg;
    if s != NULL
    then mem1[head + num - 1 := mem1[head + num - 1].(link := s, isLast := false, offset := 0, length := 0)]
    else mem1[head := mem1[head].(isLast := true, isChain := false)]
  }

  /** A head array with room for the chain, and a list that does not touch it. */
  ghost predicate Joinable(mem: seq<Entry>, head: nat, num: nat, path: seq<nat>) {
    HeadReady(mem, head, num) && ListAt(mem, path) && Apart(path, head, head + num)
  }

  /** The traversal from the head after the chaining. */
  function JoinedPath(head: nat, num: nat, path: seq<nat>, chain: bool): seq<nat>
    requires path != []
  {
    var rest := Remaining(path, chain);
    if rest == [] then [head] else Heads(head, num) + rest
  }

  /** The first entry of the list, before and after the head's length is changed. */
  lemma FirstEntry(mem: seq<Entry>, head: nat, num: nat, path: seq<nat>, e: Entry)
    requires Joinable(mem, head, num, path)
    ensures path[0] != head && Link(mem[head := e], path[0], Second(path))
  {
    assert Link(mem, path[0], Second(path));
  }

  /** What changes: the head's length, and its last slot becomes the chain or its first entry the end. */
  lemma ChainWrites(mem: seq<Entry>, head: nat, num: nat, path: seq<nat>, chain: bool)
    requires Joinable(mem, head, num, path)
    ensures var mem' := AfterChain(mem, head, path[0], chain, num);
            var rest := Remaining(path, chain);
            && |mem'| == |mem|
            && mem'[head].length == Merged(mem, head, path[0], chain)
            && mem'[head].link == mem[head].link && mem'[head].offset == mem[head].offset
            && (forall k :: 0 <= k < |mem| && k != head && k != head + num - 1 ==> mem'[k] == mem[k])
            && (rest != [] ==> !mem'[head].isLast && mem'[head + num - 1].length == 0 && mem'[head + num - 1].link == rest[0])
            && (rest == [] ==> mem'[head].isLast)
  {
    FirstEntry(mem, head, num, path, mem[head].(length := Merged(mem, head, path[0], chain)));
    if |path| > 1 {
      assert ListAt(mem, path[1..]);
      assert Link(mem, path[1..][0], Second(path[1..]));
    }
  }

  /** What is left of the list, seen in the new memory. */
  lemma RestAfterChain(mem: seq<Entry>, head: nat, num: nat, path: seq<nat>, chain: bool)
    requires Joinable(mem, head, num, path) && Remaining(path, chain) != []
    ensures var mem' := AfterChain(mem, head, path[0], chain, num);
            var rest := Remaining(path, chain);
            ListAt(mem', rest) && TotalBytes(mem', rest) == TotalBytes(mem, rest)
  {
    ChainWrites(mem, head, num, path, chain);
    var rest := Remaining(path, chain);
    assert forall i :: 0 <= i < |rest| ==> rest[i] == path[if chain then i + 1 else i];
    ListFrame(mem, AfterChain(mem, head, path[0], chain, num), rest, head, head + num);
  }

  /**
   The traversal after the chaining: with entries left, the head's data entries followed by them;
   with none left, the head's first entry alone.
   */
  lemma ChainTraversal(mem: seq<Entry>, head: nat, num: nat, path: seq<nat>, chain: bool)
    requires Joinable(mem, head, num, path)
    ensures ListAt(AfterChain(mem, head, path[0], chain, num), JoinedPath(head, num, path, chain))
  {
    ChainWrites(mem, head, num, path, chain);
    var rest := Remaining(path, chain);
    if rest != [] {
      RestAfterChain(mem, head, num, path, chain);
      HeadChained(AfterChain(mem, head, path[0], chain, num), head, num, rest);
    }
  }

  lemma BytesInOrder(mem: seq<Entry>, mem': seq<Entry>, head: nat, num: nat, rest: seq<nat>)
    requires num >= 2 && head + num <= |mem| == |mem'|
    requires forall k :: head < k < head + num - 1 ==> mem'[k] == mem[k]
    requires TotalBytes(mem', rest) == TotalBytes(mem, rest)
    ensures TotalBytes(mem', Heads(head, num) + rest)
            == mem'[head].length + TotalBytes(mem, Heads(head + 1, num - 1)) + TotalBytes(mem, rest)
  {
    var tail := Heads(head + 1, num - 1);
    HeadBytesFrame(mem, mem', head + 1, num - 1);
    TotalConcat(mem', tail, rest);
    TotalCons(mem', head, tail + rest);
    assert Heads(head, num) + rest == [head] + (tail + rest);
  }

  /** The merged length is the sum of the two lengths if and only if that sum is an unsigned int. */
  lemma MergedExactly(mem: seq<Entry>, head: nat, sg: nat, chain: bool)
    requires head < |mem| && sg < |mem|
    ensures var sum := mem[head].length + if chain then mem[sg].length else 0;
            && Merged(mem, head, sg, chain) <= sum
            && (Merged(mem, head, sg, chain) == sum <==> (chain ==> sum < UINT32_MODULUS))
  {
  }

  /** The bytes reachable from the head: the merged entry, then the rest unless the first entry ends the list. */
  lemma JoinedBytes(mem: seq<Entry>, head: nat, num: nat, path: seq<nat>, chain: bool)
    requires Joinable(mem, head, num, path)
    ensures TotalBytes(AfterChain(mem, head, path[0], chain, num), JoinedPath(head, num, path, chain))
            == Merged(mem, head, path[0], chain)
               + if Remaining(path, chain) == [] then 0
                 else TotalBytes(mem, Heads(head + 1, num - 1)) + TotalBytes(mem, Remaining(path, chain))
  {
    var mem' := AfterChain(mem, head, path[0], chain, num);
    var rest, tail := Remaining(path, chain), Heads(head + 1, num - 1);
    ChainWrites(mem, head, num, path, chain);
    if rest != [] {
      RestAfterChain(mem, head, num, path, chain);
      BytesInOrder(mem, mem', head, num, rest);
    } else {
      TotalCons(mem', head, []);
    }
  }

  /** The bytes of the head and of the list before the chaining. */
  lemma SeparateBytes(mem: seq<Entry>, head: nat, num: nat, path: seq<nat>)
    requires Joinable(mem, head, num, path)
    ensures TotalBytes(mem, Heads(head, num)) == mem[head].length + TotalBytes(mem, Heads(head + 1, num - 1))
    ensures TotalBytes(mem, path) == mem[path[0]].length + TotalBytes(mem, path[1..])
    ensures num > 2 ==> TotalBytes(mem, Heads(head + 1, num - 1)) > 0
  {
    TotalCons(mem, head, Heads(head + 1, num - 1));
    if num > 2 { TotalCons(mem, head + 1, Heads(head + 2, num - 2)); }
  }

  /**
   The bytes reachable from the head are the bytes of the head and of the list, if and only if the
   merged length does not wrap around and either entries are left or the head has only two slots.
   */
  lemma ChainConserves(mem: seq<Entry>, head: nat, num: nat, path: seq<nat>, chain: bool)
    requires Joinable(mem, head, num, path)
    ensures TotalBytes(AfterChain(mem, head, path[0], chain, num), JoinedPath(head, num, path, chain))
            == TotalBytes(mem, Heads(head, num)) + TotalBytes(mem, path)
            <==>
            && (chain ==> mem[head].length + mem[path[0]].length < UINT32_MODULUS)
            && (Remaining(path, chain) != [] || num == 2)
  {
    JoinedBytes(mem, head, num, path, chain);
    SeparateBytes(mem, head, num, path);
    MergedExactly(mem, head, path[0], chain);
    var before := TotalBytes(mem, Heads(head, num)) + TotalBytes(mem, path);
    var tail := TotalBytes(mem, Heads(head + 1, num - 1));
    var after := TotalBytes(AfterChain(mem, head, path[0], chain, num), JoinedPath(head, num, path, chain));
    if Remaining(path, chain) == [] {
      assert path[1..] == [];
      assert after == Merged(mem, head, path[0], chain);
      assert before == mem[head].length + mem[path[0]].length + tail;
      assert tail == 0 <==> num == 2;
    }
  }

  // ----- where the bytes lie -----

  /** The page, offset and length of one entry. */
  datatype Segment = Segment(page: nat, offset: nat, length: nat)

  function SegmentAt(mem: seq<Entry>, sg: nat): Segment {
    if sg < |mem| then Segment(mem[sg].link, mem[sg].offset, mem[sg].length) else Segment(NULL, 0, 0)
  }

  /** The segments a traversal meets. */
  function Segments(mem: seq<Entry>, path: seq<nat>): seq<Segment> {
    seq(|path|, i requires 0 <= i < |path| => SegmentAt(mem, path[i]))
  }

  lemma {:induction false} HeadsRange(head: nat, num: nat)
    ensures forall i :: 0 <= i < |Heads(head, num)| ==> head <= Heads(head, num)[i] < head + num - 1
    decreases num
  {
    if num >= 2 { HeadsRange(head + 1, num - 1); }
  }

  lemma SegmentsConcat(mem: seq<Entry>, xs: seq<nat>, ys: seq<nat>)
    ensures Segments(mem, xs + ys) == Segments(mem, xs) + Segments(mem, ys)
  {
  }

  lemma TailSegments(mem: seq<Entry>, mem': seq<Entry>, head: nat, num: nat)
    requires num >= 2 && head + num <= |mem| == |mem'|
    requires forall k :: 0 <= k < |mem| && k != head && k != head + num - 1 ==> mem'[k] == mem[k]
    ensures Segments(mem', Heads(head + 1, num - 1)) == Segments(mem, Heads(head + 1, num - 1))
  {
    HeadsRange(head + 1, num - 1);
  }

  lemma RestSegments(mem: seq<Entry>, mem': seq<Entry>, head: nat, num: nat, path: seq<nat>, chain: bool)
    requires num >= 2 && head + num <= |mem| == |mem'| && path != [] && Apart(path, head, head + num)
    requires forall k :: 0 <= k < |mem| && k != head && k != head + num - 1 ==> mem'[k] == mem[k]
    ensures Segments(mem', Remaining(path, chain)) == Segments(mem, Remaining(path, chain))
  {
    var rest := Remaining(path, chain);
    forall i | 0 <= i < |rest| ensures SegmentAt(mem', rest[i]) == SegmentAt(mem, rest[i]) {
      assert rest[i] == path[if chain then i + 1 else i];
    }
  }

  /**
   After the chaining the traversal meets the head's first segment, with the merged length, then the
   head's other segments and those that are left of the list, all where they were.
   */
  lemma ChainSegments(mem: seq<Entry>, head: nat, num: nat, path: seq<nat>, chain: bool)
    requires Joinable(mem, head, num, path)
    ensures Segments(AfterChain(mem, head, path[0], chain, num), JoinedPath(head, num, path, chain))
            == [SegmentAt(mem, head).(length := Merged(mem, head, path[0], chain))]
               + if Remaining(path, chain) == [] then []
                 else Segments(mem, Heads(head + 1, num - 1)) + Segments(mem, Remaining(path, chain))
  {
    var mem' := AfterChain(mem, head, path[0], chain, num);
    var rest, tail := Remaining(path, chain), Heads(head + 1, num - 1);
    ChainWrites(mem, head, num, path, chain);
    if rest == [] {
      SegmentsConcat(mem', [head], []);
    } else {
      TailSegments(mem, mem', head, num);
      RestSegments(mem, mem', head, num, path, chain);
      SegmentsConcat(mem', tail, rest);
      SegmentsConcat(mem', [head], tail + rest);
      assert Heads(head, num) + rest == [head] + (tail + rest);
    }
    assert Segments(mem', [head]) == [SegmentAt(mem', head)];
  }

  /** A head of three slots loses its second data entry when the list's only entry is merged into the first. */
  lemma ChainLosesBytes()
    ensures var free, data, end := Entry(NULL, false, false, 0, 0), Entry(7, false, false, 0, 1), Entry(7, false, true, 0, 1);
            var mem := [free, data, data, free, free, end];
            && Joinable(mem, 1, 3, [5])
            && TotalBytes(mem, Heads(1, 3)) + TotalBytes(mem, [5]) == 3
            && TotalBytes(AfterChain(mem, 1, 5, true, 3), JoinedPath(1, 3, [5], true)) == 2
  {
    var free, data, end := Entry(NULL, false, false, 0, 0), Entry(7, false, false, 0, 1), Entry(7, false, true, 0, 1);
    var mem := [free, data, data, free, free, end];
    assert [5][1..] == [];
    assert Joinable(mem, 1, 3, [5]);
    SeparateBytes(mem, 1, 3, [5]);
    TotalCons(mem, 2, []);
    JoinedBytes(mem, 1, 3, [5], true);
  }

  // ----- the functions of the header -----

  /** sg_set_page: the flag bits stay. */
  method SgSetPage(mem: array<Entry>, sg: nat, page: nat, len: nat, offset: nat)
    requires sg < mem.Length
    modifies mem
    ensures mem[..] == old(mem[..])[sg := old(mem[sg]).(link := page, offset := offset, length := len)]
  {
    mem[sg] := mem[sg].(link := page);
    mem[sg] := mem[sg].(offset := offset);
    mem[sg] := mem[sg].(length := len);
  }

  /** sg_mark_end */
  method SgMarkEnd(mem: array<Entry>, sg: nat)
    requires sg < mem.Length
    modifies mem
    ensures mem[..] == old(mem[..])[sg := old(mem[sg]).(isLast := true, isChain := false)]
  {
    mem[sg] := mem[sg].(isLast := true);
    mem[sg] := mem[sg].(isChain := false);
  }

  /** scatterwalk_sg_chain */
  method SgChain(mem: array<Entry>, sg1: nat, num: nat, sg2: nat)
    requires num >= 1 && sg1 + num <= mem.Length
    modifies mem
    ensures mem[..] == old(mem[..])[sg1 + num - 1 :=
                         old(mem[sg1 + num - 1]).(link := sg2, isLast := false, offset := 0, length := 0)]
  {
    SgSetPage(mem, sg1 + num - 1, sg2, 0, 0);
    mem[sg1 + num - 1] := mem[sg1 + num - 1].(isLast := false);
  }

  /**
   Entry by entry: the head keeps its page and offset and gets the merged length; its last slot becomes
   a link to `next`, or the head the end of the list if there is no next entry; all else stays.
   */
  ghost predicate Chained(mem: seq<Entry>, mem': seq<Entry>, head: nat, num: nat, merged: nat, next: nat)
    requires num >= 2 && head + num <= |mem|
  {
    var h, slot := mem[head], mem[head + num - 1];
    && |mem'| == |mem|
    && (forall k :: 0 <= k < |mem| && k != head && k != head + num - 1 ==> mem'[k] == mem[k])
    && if next != NULL
       then
         && mem'[head] == Entry(h.link, h.isChain, h.isLast, h.offset, merged)
         && mem'[head + num - 1] == Entry(next, slot.isChain, false, 0, 0)
       else mem'[head] == Entry(h.link, false, true, h.offset, merged) && mem'[head + num - 1] == slot
  }

  /** scatterwalk_crypto_chain */
  method CryptoChain(mem: array<Entry>, head: nat, sg: nat, chain: bool, num: nat)
    requires num >= 1 && head + num <= mem.Length && sg < mem.Length && (!mem[sg].isLast ==> sg + 1 < mem.Length)
    requires !(head <= sg < head + num)
    modifies mem
    ensures mem[..] == AfterChain(old(mem[..]), head, sg, chain, num)
    ensures num >= 2 && sg + 1 != head ==>
              Chained(old(mem[..]), mem[..], head, num, Merged(old(mem[..]), head, sg, chain),
                      if chain then SgNext(old(mem[..]), sg) else sg)
  {
    var s := sg;
    if chain {
      mem[head] := mem[head].(length := (mem[head].length + mem[s].length) % UINT32_MODULUS);
      s := SgNext(mem[..], s);
    }
    assert mem[..] == old(mem[..])[head := mem[head]];
    if s != NULL {
      SgChain(mem, head, num, s);
    } else {
      SgMarkEnd(mem, head);
    }
  }

  /** Following scatterwalk_sg_next from the first entry visits the list and ends. */
  method Traverse(mem: array<Entry>, first: nat, ghost path: seq<nat>) returns (visited: seq<nat>, bytes: nat)
    requires ListAt(mem[..], path) && path[0] == first
    ensures visited == path && bytes == TotalBytes(mem[..], path)
  {
    visited, bytes := [], 0;
    var sg := first;
    ghost var ahead := path;
    while sg != NULL
      invariant visited + ahead == path
      invariant bytes + TotalBytes(mem[..], ahead) == TotalBytes(mem[..], path)
      invariant if sg == NULL then ahead == [] else ListAt(mem[..], ahead) && ahead[0] == sg
      decreases |ahead|
    {
      visited, bytes := visited + [sg], bytes + mem[sg].length;
      sg := SgNext(mem[..], sg);
      ahead := ahead[1..];
    }
  }
}
