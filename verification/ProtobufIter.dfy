/** nanopb's field iterator, which runs around the descriptor in a circle, and the decoding loop
    that uses it. */
module ProtobufIter {
  import opened Keys
  import opened Coding
  import opened Protobuf

  /** The field array, without its terminator. */
  function FieldArray(fs: Fields): seq<Field> {
    match fs
    case End => []
    case More(f, rest) => [f] + FieldArray(rest)
  }

  /** The number of required fields among the first n. */
  function RequiredBefore(fs: seq<Field>, n: nat): (r: nat)
    requires n <= |fs|
  {
    if n == 0 then 0 else RequiredBefore(fs, n - 1) + if fs[n - 1].h.Required? then 1 else 0
  }

  ghost predicate TagsNonZero(fs: seq<Field>) {
    forall i :: 0 <= i < |fs| ==> fs[i].tag != 0
  }

  ghost predicate UniqueTags(fs: seq<Field>) {
    forall i, j :: 0 <= i < j < |fs| ==> fs[i].tag != fs[j].tag
  }

  class FieldIter {
    const fields: seq<Field>
    var pos: nat
    var requiredIndex: nat

    ghost predicate Valid()
      reads this
    {
      && TagsNonZero(fields)
      && (if fields == [] then pos == 0 else pos < |fields|) && pos <= |fields| && requiredIndex == RequiredBefore(fields, pos)
    }

    /** pb_field_iter_begin. */
    constructor (fs: seq<Field>)
      requires TagsNonZero(fs)
      ensures Valid() && fields == fs && pos == 0
    {
      fields, pos, requiredIndex := fs, 0, 0;
    }

    /** pb_field_iter_next: on to the next field, or back to the first and false. */
    method Next() returns (more: bool)
      requires Valid()
      modifies this
      ensures Valid() && more == (old(pos) + 1 < |fields|)
      ensures pos == if more then old(pos) + 1 else 0
    {
      if fields == [] {
        return false;
      }
      if pos + 1 == |fields| {
        pos, requiredIndex := 0, 0;
        return false;
      }
      if fields[pos].h.Required? {
        requiredIndex := requiredIndex + 1;
      }
      pos := pos + 1;
      more := true;
    }

    /** pb_field_iter_find: from wherever the iterator is, a field is found exactly if the
        descriptor has it; otherwise the iterator is back where it was.  An empty descriptor is
        its terminator, which has the tag 0. */
    method Find(tag: nat) returns (found: bool)
      requires Valid()
      modifies this
      ensures Valid() && found == ((exists i :: 0 <= i < |fields| && fields[i].tag == tag) || (fields == [] && tag == 0))
      ensures if found && fields != [] then pos < |fields| && fields[pos].tag == tag else pos == old(pos)
    {
      if fields == [] {
        return tag == 0;
      }
      var start := pos;
      var again := true;
      ghost var wrapped := false;
      while again
        invariant Valid() && start < |fields|
        invariant again || pos == start
        invariant if wrapped then pos <= start && Without(fields, tag, start, |fields|) && Without(fields, tag, 0, pos)
                  else start <= pos && Without(fields, tag, start, pos)
        invariant again ==> !wrapped || pos < start
        invariant !again ==> wrapped
        decreases again, !wrapped, |fields| - pos
      {
        if fields[pos].tag == tag {
          return true;
        }
        var more := Next();
        if !more {
          wrapped := true;
        }
        again := pos != start;
      }
      found := false;
    }

    /** The end of the decoder: how many required fields there are, from wherever the iterator is. */
    method CountRequired() returns (count: nat)
      requires Valid()
      modifies this
      ensures Valid() && count == RequiredBefore(fields, |fields|)
    {
      count := requiredIndex;
      var lastRequired := fields != [] && fields[pos].h.Required?;
      var more := Next();
      while more
        invariant Valid()
        invariant if more then 0 < pos && count == RequiredBefore(fields, pos - 1) && lastRequired == fields[pos - 1].h.Required?
                  else if fields == [] then count == 0 && !lastRequired
                  else count == RequiredBefore(fields, |fields| - 1) && lastRequired == fields[|fields| - 1].h.Required?
        decreases more, |fields| - pos
      {
        count, lastRequired := requiredIndex, fields[pos].h.Required?;
        more := Next();
      }
      if lastRequired {
        count := count + 1;
      }
    }
  }

  ghost predicate Without(fs: seq<Field>, tag: nat, from: nat, upto: nat) {
    forall i :: from <= i < upto && i < |fs| ==> fs[i].tag != tag
  }

  // ---- The iterator and the descriptor ----

  /** Searching the descriptor from its start finds a field with the tag if there is one. */
  lemma {:induction false} FieldWithTag(fs: Fields, tag: nat)
    ensures FieldWith(fs, tag).Some? ==> FieldWith(fs, tag).value.tag == tag && FieldWith(fs, tag).value in FieldArray(fs)
    ensures FieldWith(fs, tag).None? ==> forall f <- FieldArray(fs) :: f.tag != tag
  {
    match fs
    case End =>
    case More(f, rest) => FieldWithTag(rest, tag);
  }

  /** With unique tags the iterator finds the same field, wherever it starts. */
  lemma SameField(fs: Fields, tag: nat, pos: nat)
    requires UniqueTags(FieldArray(fs)) && pos < |FieldArray(fs)| && FieldArray(fs)[pos].tag == tag
    ensures FieldWith(fs, tag) == Some(FieldArray(fs)[pos])
  {
    var all := FieldArray(fs);
    FieldWithTag(fs, tag);
    assert all[pos] in all;
    var i :| 0 <= i < |all| && all[i] == FieldWith(fs, tag).value;
    assert i == pos;
  }

  // ---- Required fields ----

  lemma {:induction false} RequiredBehind(f: Field, rest: seq<Field>, n: nat)
    requires n <= |rest|
    ensures RequiredBefore([f] + rest, n + 1) == RequiredBefore(rest, n) + if f.h.Required? then 1 else 0
    decreases n
  {
    if n == 0 {
      assert RequiredBefore([f] + rest, 0) == 0;
    } else {
      RequiredBehind(f, rest, n - 1);
      assert ([f] + rest)[n] == rest[n - 1];
    }
  }

  /** Required field i is not checked, or it has been seen. */
  ghost predicate SeenAt(fs: seq<Field>, seen: set<nat>, index: nat, i: nat)
    requires i < |fs|
  {
    fs[i].h.Required? && index + RequiredBefore(fs, i) < MAX_REQUIRED ==> fs[i].tag in seen
  }

  ghost predicate AllSeen(fs: seq<Field>, seen: set<nat>, index: nat) {
    forall i :: 0 <= i < |fs| ==> SeenAt(fs, seen, index, i)
  }

  lemma {:induction false} RequiredSeenAt(fs: Fields, seen: set<nat>, index: nat)
    ensures RequiredSeen(fs, seen, index) <==> AllSeen(FieldArray(fs), seen, index)
  {
    match fs
    case End =>
    case More(f, rest) =>
      var all, tail := FieldArray(fs), FieldArray(rest);
      var next := if f.h.Required? then index + 1 else index;
      RequiredSeenAt(rest, seen, next);
      assert SeenAt(all, seen, index, 0) <==> (f.h.Required? && index < MAX_REQUIRED ==> f.tag in seen);
      forall i | 0 < i < |all|
        ensures SeenAt(all, seen, index, i) <==> SeenAt(tail, seen, next, i - 1)
      {
        RequiredBehind(f, tail, i - 1);
        assert all[i] == tail[i - 1];
      }
      assert all == [f] + tail;
      SeenBehind(all, tail, seen, index, next);
      assert RequiredSeen(fs, seen, index) <==> SeenAt(all, seen, index, 0) && RequiredSeen(rest, seen, next);
  }

  lemma SeenBehind(all: seq<Field>, tail: seq<Field>, seen: set<nat>, index: nat, next: nat)
    requires |all| == |tail| + 1
    requires forall i :: 0 < i < |all| ==> (SeenAt(all, seen, index, i) <==> SeenAt(tail, seen, next, i - 1))
    ensures AllSeen(all, seen, index) <==> SeenAt(all, seen, index, 0) && AllSeen(tail, seen, next)
  {
    if AllSeen(all, seen, index) {
      forall i | 0 <= i < |tail|
        ensures SeenAt(tail, seen, next, i)
      {
        assert SeenAt(all, seen, index, i + 1);
      }
    }
  }

  lemma {:induction false} RequiredGrows(fs: seq<Field>, m: nat, n: nat)
    requires m <= n <= |fs|
    ensures RequiredBefore(fs, m) <= RequiredBefore(fs, n)
    decreases n
  {
    if m < n {
      RequiredGrows(fs, m, n - 1);
    }
  }

  /** Every number below the count belongs to a required field. */
  lemma {:induction false} RequiredWith(fs: seq<Field>, n: nat, k: nat) returns (i: nat)
    requires n <= |fs| && k < RequiredBefore(fs, n)
    ensures i < n && fs[i].h.Required? && RequiredBefore(fs, i) == k
    decreases n
  {
    if k < RequiredBefore(fs, n - 1) {
      i := RequiredWith(fs, n - 1, k);
    } else {
      i := n - 1;
    }
  }

  /** The bits of the decoder tell which of the first required fields have been seen. */
  ghost predicate Tracked(fs: seq<Field>, bits: seq<bool>, seen: set<nat>) {
    |bits| == MAX_REQUIRED && forall i :: 0 <= i < |fs| ==> TrackedAt(fs, bits, seen, i)
  }

  ghost predicate TrackedAt(fs: seq<Field>, bits: seq<bool>, seen: set<nat>, i: nat)
    requires i < |fs|
  {
    fs[i].h.Required? && RequiredBefore(fs, i) < |bits| ==> (bits[RequiredBefore(fs, i)] <==> fs[i].tag in seen)
  }

  /** Setting the bit of field p. */
  lemma TrackedMore(fs: seq<Field>, bits: seq<bool>, seen: set<nat>, p: nat)
    requires Tracked(fs, bits, seen) && UniqueTags(fs) && p < |fs| && fs[p].h.Required?
    ensures var k := RequiredBefore(fs, p);
      Tracked(fs, if k < MAX_REQUIRED then bits[k := true] else bits, seen + {fs[p].tag})
  {
    var k := RequiredBefore(fs, p);
    var bits2 := if k < MAX_REQUIRED then bits[k := true] else bits;
    forall i | 0 <= i < |fs|
      ensures TrackedAt(fs, bits2, seen + {fs[p].tag}, i)
    {
      assert TrackedAt(fs, bits, seen, i);
      if i < p {
        RequiredGrows(fs, i + 1, p);
      } else if p < i {
        RequiredGrows(fs, p + 1, i);
      }
    }
  }

  /** All bits below the count are set exactly if no required field is missing. */
  lemma AllTracked(fs: Fields, bits: seq<bool>, seen: set<nat>)
    requires Tracked(FieldArray(fs), bits, seen)
    ensures var all := FieldArray(fs);
      (forall k :: 0 <= k < RequiredBefore(all, |all|) && k < MAX_REQUIRED ==> bits[k]) <==> RequiredSeen(fs, seen, 0)
  {
    var all := FieldArray(fs);
    RequiredSeenAt(fs, seen, 0);
    if forall k :: 0 <= k < RequiredBefore(all, |all|) && k < MAX_REQUIRED ==> bits[k] {
      forall i | 0 <= i < |all|
        ensures SeenAt(all, seen, 0, i)
      {
        assert TrackedAt(all, bits, seen, i);
        RequiredGrows(all, i + 1, |all|);
      }
    }
    if RequiredSeen(fs, seen, 0) {
      forall k | 0 <= k < RequiredBefore(all, |all|) && k < MAX_REQUIRED
        ensures bits[k]
      {
        var i := RequiredWith(all, |all|, k);
        assert SeenAt(all, seen, 0, i) && TrackedAt(all, bits, seen, i);
      }
    }
  }

  // ---- Decoding ----

  /** Skipping fields from the start of the stream, one with the number zero comes up. */
  function MeetsZero(b: Bytes): bool
    decreases |b|
  {
    match DecTag(b)
    case BadTag => false
    case Eof => false
    case Tag(tag, wireType, rest) =>
      if tag == 0 then true else
        match SkipField(wireType, rest)
        case None => false
        case Some(after) => MeetsZero(after)
  }

  /** pb_decode_noinit: the loop, with the iterator left wherever the last field was found and a
      bit for each of the first required fields, computes what DecMessage says.  Where a field
      number zero meets the terminator of an empty descriptor, it is `astray`. */
  method DecodeNoinit(fs: Fields, dest: map<nat, Slot>, stream: Bytes) returns (r: Option<map<nat, Slot>>, astray: bool)
    requires TagsNonZero(FieldArray(fs)) && UniqueTags(FieldArray(fs))
    ensures astray <==> fs == End && MeetsZero(stream)
    ensures !astray ==> r == DecMessage(fs, dest, stream, {})
  {
    var iter := new FieldIter(FieldArray(fs));
    var fieldsSeen: seq<bool> := seq(MAX_REQUIRED, _ => false);
    var m: map<nat, Slot>, b := dest, stream;
    astray := false;
    ghost var seen: set<nat> := {};
    var more := true;
    while more && b != []
      invariant !astray && iter.Valid() && iter.fields == FieldArray(fs) && fresh(iter) && Tracked(iter.fields, fieldsSeen, seen)
      invariant if more then DecMessage(fs, m, b, seen) == DecMessage(fs, dest, stream, {})
                else Protobuf.Finish(fs, m, seen) == DecMessage(fs, dest, stream, {})
      invariant fs == End ==> MeetsZero(stream) == (more && MeetsZero(b))
      decreases more, |b|
    {
      match DecTag(b)
      case BadTag =>
        return None, false;
      case Eof =>
        more := false;
      case Tag(tag, wireType, rest) =>
        FieldWithTag(fs, tag);
        var found := iter.Find(tag);
        if !found {
          var after := SkipField(wireType, rest);
          if after.None? {
            return None, false;
          }
          b := after.value;
        } else if iter.fields == [] {
          return None, true;
        } else {
          SameField(fs, tag, iter.pos);
          var f := iter.fields[iter.pos];
          if f.h.Required? {
            TrackedMore(iter.fields, fieldsSeen, seen, iter.pos);
            if iter.requiredIndex < MAX_REQUIRED {
              fieldsSeen := fieldsSeen[iter.requiredIndex := true];
            }
            seen := seen + {tag};
          }
          var d := DecSlot(f, if tag in m then m[tag] else DefaultSlot(f), wireType, rest);
          if d.None? {
            return None, false;
          }
          m, b := Chosen(fs, f, m)[tag := d.value.0], d.value.1;
        }
    }
    var count := iter.CountRequired();
    AllTracked(fs, fieldsSeen, seen);
    r := if AllSet(fieldsSeen, if count > MAX_REQUIRED then MAX_REQUIRED else count) then Some(m) else None;
  }

  /** The words of bits, compared with all ones up to the count. */
  predicate AllSet(bits: seq<bool>, n: nat)
    requires n <= |bits|
  {
    forall k :: 0 <= k < n ==> bits[k]
  }
}
