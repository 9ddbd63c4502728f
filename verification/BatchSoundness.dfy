/** Which contents of a write batch are accepted. */
module BatchSoundness {
  import opened Keys
  import opened Coding
  import opened WriteBatches

  /** A type byte and one or two slices. */
  ghost predicate Spells(x: Bytes, u: Update) {
    match u
    case Put(key, value) => exists a, b :: SpellsPut(x, a, b, key, value)
    case Delete(key) => x != [] && x[0] == 0 && IsSlice(x[1..], key)
  }

  ghost predicate SpellsPut(x: Bytes, a: Bytes, b: Bytes, key: Bytes, value: Bytes) {
    x == [1] + a + b && IsSlice(a, key) && IsSlice(b, value)
  }

  ghost predicate SpellAll(xs: seq<Bytes>, us: seq<Update>) {
    |xs| == |us| && forall i :: 0 <= i < |xs| ==> Spells(xs[i], us[i])
  }

  lemma SpelledReads(x: Bytes, u: Update, rest: Bytes)
    requires Spells(x, u)
    ensures x != [] && ParseUpdate(x + rest) == Some((u, rest))
  {
    match u
    case Put(key, value) =>
      var a, b :| SpellsPut(x, a, b, key, value);
      assert (x + rest)[1..] == a + (b + rest);
      SliceReads(a, key, b + rest);
      SliceReads(b, value, rest);
    case Delete(key) =>
      assert (x + rest)[1..] == x[1..] + rest;
      SliceReads(x[1..], key, rest);
  }

  lemma PutIsSpelled(a: Bytes, b: Bytes, key: Bytes, value: Bytes)
    requires IsSlice(a, key) && IsSlice(b, value)
    ensures Spells([1] + a + b, Update.Put(key, value))
  {
    assert SpellsPut([1] + a + b, a, b, key, value);
  }

  lemma DeleteIsSpelled(a: Bytes, key: Bytes)
    requires IsSlice(a, key)
    ensures Spells([0] + a, Update.Delete(key))
  {
    assert ([0] + a)[1..] == a;
  }

  lemma Rejoin(b: Bytes, a: Bytes, after: Bytes, c: Bytes, rest: Bytes)
    requires b != [] && b[1..] == a + after && after == c + rest
    ensures b == [b[0]] + a + after == [b[0]] + a + c + rest
  {
    assert b == [b[0]] + b[1..];
  }

  lemma ReadIsSpelled(b: Bytes) returns (x: Bytes)
    requires b != [] && ParseUpdate(b).Some?
    ensures b == x + ParseUpdate(b).value.1 && Spells(x, ParseUpdate(b).value.0)
  {
    var a := SliceRead(b[1..]);
    var key, after := GetSlice(b[1..]).value.0, GetSlice(b[1..]).value.1;
    if b[0] == 1 {
      var c := SliceRead(after);
      PutIsSpelled(a, c, key, GetSlice(after).value.0);
      Rejoin(b, a, after, c, GetSlice(after).value.1);
      x := [1] + a + c;
    } else {
      DeleteIsSpelled(a, key);
      Rejoin(b, a, after, [], after);
      x := [0] + a;
    }
  }

  lemma {:induction false} AllSpelledRead(xs: seq<Bytes>, us: seq<Update>)
    requires SpellAll(xs, us)
    ensures Parse(Laid(xs)) == (us, true)
    decreases |xs|
  {
    if xs != [] {
      SpelledReads(xs[0], us[0], Laid(xs[1..]));
      AllSpelledRead(xs[1..], us[1..]);
      ParseFirst(Laid(xs), us[0], Laid(xs[1..]));
      assert us == [us[0]] + us[1..];
    }
  }

  /** What has been handled stands at the front, update by update; what follows is nothing, or
      cannot begin with one more. */
  lemma {:induction false} HandledIsSpelled(b: Bytes) returns (xs: seq<Bytes>, rest: Bytes)
    ensures b == Laid(xs) + rest && SpellAll(xs, Parse(b).0)
    ensures if Parse(b).1 then rest == [] else rest != [] && forall x, u, more :: Spells(x, u) ==> rest != x + more
    decreases |b|
  {
    if b == [] {
      xs, rest := [], [];
    } else if ParseUpdate(b).None? {
      xs, rest := [], b;
      assert [] + b == b;
      forall x, u, more | Spells(x, u)
        ensures rest != x + more
      {
        SpelledReads(x, u, more);
      }
    } else {
      var x := ReadIsSpelled(b);
      var after := ParseUpdate(b).value.1;
      var ys;
      ys, rest := HandledIsSpelled(after);
      xs := [x] + ys;
      assert xs[1..] == ys;
      Join(x, Laid(ys), rest);
      ParseFirst(b, ParseUpdate(b).value.0, after);
    }
  }

  ghost predicate Accepted(rep: Bytes, us: seq<Update>) {
    |rep| >= 12 && (exists xs :: SpellAll(xs, us) && rep[12..] == Laid(xs)) && Count(rep) == |us|
  }

  /** A batch is accepted with its updates if and only if behind the header they are spelled out,
      one after the other up to the end, and the header counts them. */
  lemma AcceptedIff(rep: Bytes, us: seq<Update>)
    ensures Replay(rep) == (us, Ok) <==> Accepted(rep, us)
  {
    if |rep| >= 12 {
      var xs, rest := HandledIsSpelled(rep[12..]);
      if Replay(rep) == (us, Ok) {
        assert Laid(xs) + [] == Laid(xs);
      }
      if Accepted(rep, us) {
        var ys :| SpellAll(ys, us) && rep[12..] == Laid(ys);
        AllSpelledRead(ys, us);
      }
    }
  }

  /** The other statuses: no room for a header, something that is not an update, or a wrong count. */
  lemma RejectedIff(rep: Bytes)
    ensures Replay(rep).1 == TooSmall <==> |rep| < 12
    ensures Replay(rep).1 == WrongCount <==> |rep| >= 12 && (exists us, xs :: SpellAll(xs, us) && rep[12..] == Laid(xs) && Count(rep) != |us|)
  {
    if |rep| >= 12 {
      var xs, rest := HandledIsSpelled(rep[12..]);
      if Replay(rep).1 == WrongCount {
        assert Laid(xs) + [] == Laid(xs);
        assert SpellAll(xs, Parse(rep[12..]).0);
      }
      if exists us, ys :: SpellAll(ys, us) && rep[12..] == Laid(ys) && Count(rep) != |us| {
        var us, ys :| SpellAll(ys, us) && rep[12..] == Laid(ys) && Count(rep) != |us|;
        AllSpelledRead(ys, us);
      }
    }
  }
}
