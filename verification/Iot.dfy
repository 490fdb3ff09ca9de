// Importing device capsules (src/iot.rs): newest sequence wins, replays change nothing, and any
// order of delivery ends in the same state.
module Iot {
  import opened Wrappers
  import opened Bytes

  type Frame = seq<byte>

  // A device's slot: the key of a source.
  type Source = (seq<byte>, u32)

  datatype Capsule = Capsule(deviceId: seq<byte>, slot: u32, sequence: u64, deleted: bool, payload: seq<byte>)

  datatype Head = Head(source: Source, sequence: u64, fingerprint: seq<byte>)

  datatype Document = Document(content: seq<byte>, version: u64)

  // The committed heads by id and the memory sources the capsules wrote.
  datatype Tables = Tables(heads: map<int, Head>, memory: map<Source, Document>)

  const NO_TABLES: Tables := Tables(map[], map[])

  datatype Receipt = Receipt(source: Source, sequence: u64, applied: bool, deleted: bool)

  // What is not modelled further: the capsule decoder, the SHA-256 digest of a frame, the id derived
  // from a source, and whether a payload is UTF-8 text that is not blank.
  datatype Gateway = Gateway(decode: Frame -> Option<Capsule>, digest: Frame -> seq<byte>,
                             headId: Source -> int, isText: seq<byte> -> bool)

  function SourceOf(c: Capsule): Source {
    (c.deviceId, c.slot)
  }

  // The frame decodes and carries text or a deletion.
  predicate Acceptable(g: Gateway, f: Frame) {
    match g.decode(f)
    case Some(c) => c.deleted || g.isText(c.payload)
    case None => false
  }

  function SourceIn(g: Gateway, f: Frame): Source
    requires Acceptable(g, f)
  {
    SourceOf(g.decode(f).value)
  }

  function Sequence(g: Gateway, f: Frame): u64
    requires Acceptable(g, f)
  {
    g.decode(f).value.sequence
  }

  predicate Deletes(g: Gateway, f: Frame)
    requires Acceptable(g, f)
  {
    g.decode(f).value.deleted
  }

  function HeadOf(g: Gateway, f: Frame): Head
    requires Acceptable(g, f)
  {
    Head(SourceIn(g, f), Sequence(g, f), g.digest(f))
  }

  // ---- importing one frame ----

  function Written(t: Tables, g: Gateway, f: Frame): Tables
    requires Acceptable(g, f)
  {
    var c := g.decode(f).value;
    var source := SourceOf(c);
    Tables(t.heads[g.headId(source) := HeadOf(g, f)],
           if c.deleted then t.memory - {source} else t.memory[source := Document(c.payload, c.sequence)])
  }

  function Imported(t: Tables, g: Gateway, f: Frame): (Tables, Result<Receipt>) {
    match g.decode(f)
    case None => (t, Err(Corrupted))
    case Some(c) =>
      if !c.deleted && !g.isText(c.payload) then (t, Err(ConstraintViolation))
      else
        var source := SourceOf(c);
        var id := g.headId(source);
        var applied := (Written(t, g, f), Ok(Receipt(source, c.sequence, true, c.deleted)));
        if id !in t.heads then applied
        else
          var head := t.heads[id];
          if head.source != source || c.sequence < head.sequence then (t, Err(ConstraintViolation))
          else if c.sequence == head.sequence then
            (t, if g.digest(f) == head.fingerprint then Ok(Receipt(source, c.sequence, false, c.deleted))
                else Err(ConstraintViolation))
          else applied
  }

  // The tables of a gateway's session; a failing import leaves its transaction and changes nothing.
  class IotTables {
    var heads: map<int, Head>
    var memory: map<Source, Document>

    ghost function Contents(): Tables
      reads this
    {
      Tables(heads, memory)
    }

    constructor ()
      ensures Contents() == NO_TABLES
    {
      heads, memory := map[], map[];
    }

    method ImportCapsule(g: Gateway, f: Frame) returns (r: Result<Receipt>)
      modifies this
      ensures (Contents(), r) == Imported(old(Contents()), g, f)
    {
      var decoded := g.decode(f);
      if decoded.None? {
        return Err(Corrupted);
      }
      var capsule := decoded.value;
      if !capsule.deleted && !g.isText(capsule.payload) {
        return Err(ConstraintViolation);
      }
      var source := SourceOf(capsule);
      var fingerprint, id := g.digest(f), g.headId(source);
      var receipt := Receipt(source, capsule.sequence, false, capsule.deleted);
      if id in heads {
        var stored := heads[id];
        if stored.source != source {
          return Err(ConstraintViolation);
        }
        if capsule.sequence < stored.sequence {
          return Err(ConstraintViolation);
        }
        if capsule.sequence == stored.sequence {
          if fingerprint == stored.fingerprint {
            return Ok(receipt);
          }
          return Err(ConstraintViolation);
        }
      }
      if capsule.deleted {
        memory := memory - {source};
      } else {
        memory := memory[source := Document(capsule.payload, capsule.sequence)];
      }
      heads := heads[id := Head(source, capsule.sequence, fingerprint)];
      return Ok(receipt.(applied := true));
    }
  }

  // An import that is refused or replayed changes nothing; one that is applied moves exactly one
  // head, strictly forward, and touches no other source.
  lemma ImportStep(t: Tables, g: Gateway, f: Frame)
    ensures var (t', r) := Imported(t, g, f);
            && (r.Err? || !r.value.applied ==> t' == t)
            && (r.Ok? && r.value.applied ==>
                  && Acceptable(g, f)
                  && var id, source := g.headId(SourceIn(g, f)), SourceIn(g, f);
                  && t'.heads == t.heads[id := HeadOf(g, f)]
                  && (id in t.heads ==> t.heads[id].source == source && t.heads[id].sequence < Sequence(g, f))
                  && forall s :: s != source ==>
                       (s in t'.memory <==> s in t.memory) && (s in t.memory ==> t'.memory[s] == t.memory[s]))
  {
  }

  // What an import answers: a frame is taken exactly when it is acceptable and its source is unknown, has
  // moved less far, or is where this very frame took it; anything else of the source, and a source whose
  // head id another one has, is refused.
  lemma ImportExact(t: Tables, g: Gateway, f: Frame)
    ensures var (t', r) := Imported(t, g, f);
            && (r.Ok? <==>
                  && Acceptable(g, f)
                  && var id := g.headId(SourceIn(g, f));
                  && (id in t.heads ==>
                        && t.heads[id].source == SourceIn(g, f)
                        && (t.heads[id].sequence < Sequence(g, f)
                            || (t.heads[id].sequence == Sequence(g, f) && t.heads[id].fingerprint == g.digest(f)))))
            && (r.Ok? ==>
                  && Acceptable(g, f)
                  && var id := g.headId(SourceIn(g, f));
                  var newer := id in t.heads ==> t.heads[id].sequence < Sequence(g, f);
                  && r == Ok(Receipt(SourceIn(g, f), Sequence(g, f), newer, Deletes(g, f)))
                  && t' == if newer then Written(t, g, f) else t)
            && (r.Err? ==> t' == t && r.error == if g.decode(f).None? then Corrupted else ConstraintViolation)
  {
  }

  // ---- whole deliveries ----

  function Delivered(t: Tables, g: Gateway, fs: seq<Frame>): Tables {
    if fs == [] then t else Imported(Delivered(t, g, fs[..|fs| - 1]), g, fs[|fs| - 1]).0
  }

  // Frames of other sources, refused ones and ones that do not overtake it leave a head where it is.
  lemma {:induction false} HeadStays(t: Tables, g: Gateway, f: Frame, fs: seq<Frame>)
    requires Acceptable(g, f) && g.headId(SourceIn(g, f)) in t.heads && t.heads[g.headId(SourceIn(g, f))] == HeadOf(g, f)
    requires NotOvertaken(g, f, fs)
    ensures g.headId(SourceIn(g, f)) in Delivered(t, g, fs).heads
    ensures Delivered(t, g, fs).heads[g.headId(SourceIn(g, f))] == HeadOf(g, f)
  {
    hide Imported;
    if fs != [] {
      var front, last := fs[..|fs| - 1], fs[|fs| - 1];
      assert fs == front + [last];
      HeadStays(t, g, f, front);
      ImportStep(Delivered(t, g, front), g, last);
    }
  }

  // No frame of the same source has a larger sequence.
  ghost predicate NotOvertaken(g: Gateway, f: Frame, fs: seq<Frame>)
    requires Acceptable(g, f)
  {
    forall a :: a in fs && Acceptable(g, a) && SourceIn(g, a) == SourceIn(g, f) ==> Sequence(g, a) <= Sequence(g, f)
  }

  // Once f has been taken, and whatever has come since that does not overtake it: f itself is answered as a
  // replay, a frame of the same source with a lower sequence, or with the same one and another digest,
  // is refused, and one with a larger sequence is applied.
  lemma AnswersAfter(t: Tables, g: Gateway, f: Frame, fs: seq<Frame>, a: Frame)
    requires Imported(t, g, f).1.Ok?
    requires Acceptable(g, f) && NotOvertaken(g, f, fs)
    requires Acceptable(g, a) && SourceIn(g, a) == SourceIn(g, f)
    ensures var n, m, before := Sequence(g, f), Sequence(g, a), Delivered(Imported(t, g, f).0, g, fs);
            var r := Imported(before, g, a);
            && (a == f ==> r == (before, Ok(Receipt(SourceIn(g, f), n, false, Deletes(g, f)))))
            && (m < n || (m == n && g.digest(a) != g.digest(f)) ==> r == (before, Err(ConstraintViolation)))
            && (m > n ==> r == (Written(before, g, a), Ok(Receipt(SourceIn(g, f), m, true, Deletes(g, a)))))
  {
    hide Imported;
    ImportExact(t, g, f);
    ImportStep(t, g, f);
    HeadStays(Imported(t, g, f).0, g, f, fs);
    ImportExact(Delivered(Imported(t, g, f).0, g, fs), g, a);
  }

  // At most one frame for a source and sequence, and no two sources with one head id.
  ghost predicate Consistent(g: Gateway, fs: seq<Frame>) {
    forall a, b :: a in fs && b in fs && Acceptable(g, a) && Acceptable(g, b) ==> Compatible(g, a, b)
  }

  ghost predicate Compatible(g: Gateway, a: Frame, b: Frame)
    requires Acceptable(g, a) && Acceptable(g, b)
  {
    && (SourceIn(g, a) == SourceIn(g, b) && Sequence(g, a) == Sequence(g, b) ==> a == b)
    && (g.headId(SourceIn(g, a)) == g.headId(SourceIn(g, b)) ==> SourceIn(g, a) == SourceIn(g, b))
  }

  // An acceptable frame that no acceptable frame of its source overtakes.
  ghost predicate Newest(g: Gateway, f: Frame, fs: seq<Frame>) {
    && f in fs && Acceptable(g, f)
    && forall a :: a in fs && Acceptable(g, a) && SourceIn(g, a) == SourceIn(g, f) ==> Sequence(g, a) <= Sequence(g, f)
  }

  // The tables hold the newest frame of every source and nothing else.
  ghost predicate Reflects(t: Tables, g: Gateway, fs: seq<Frame>) {
    && (forall f :: Newest(g, f, fs) ==> HoldsFrame(t, g, f))
    && (forall id :: id in t.heads ==> exists f :: Newest(g, f, fs) && g.headId(SourceIn(g, f)) == id)
    && (forall s :: s in t.memory ==> exists f :: Newest(g, f, fs) && SourceIn(g, f) == s)
  }

  ghost predicate HoldsFrame(t: Tables, g: Gateway, f: Frame)
    requires Acceptable(g, f)
  {
    var c, source := g.decode(f).value, SourceIn(g, f);
    && g.headId(source) in t.heads && t.heads[g.headId(source)] == HeadOf(g, f)
    && (if c.deleted then source !in t.memory
        else source in t.memory && t.memory[source] == Document(c.payload, c.sequence))
  }

  lemma {:induction false} NewestExists(g: Gateway, f: Frame, fs: seq<Frame>) returns (n: Frame)
    requires f in fs && Acceptable(g, f)
    ensures Newest(g, n, fs) && SourceIn(g, n) == SourceIn(g, f) && Sequence(g, f) <= Sequence(g, n)
    decreases |fs|
  {
    var front, last := fs[..|fs| - 1], fs[|fs| - 1];
    assert fs == front + [last];
    if f in front {
      n := NewestExists(g, f, front);
      if Acceptable(g, last) && SourceIn(g, last) == SourceIn(g, f) && Sequence(g, n) < Sequence(g, last) {
        n := last;
      }
    } else if exists a :: a in front && Acceptable(g, a) && SourceIn(g, a) == SourceIn(g, f) {
      var a :| a in front && Acceptable(g, a) && SourceIn(g, a) == SourceIn(g, f);
      n := NewestExists(g, a, front);
      if Sequence(g, n) < Sequence(g, f) {
        n := f;
      }
    } else {
      n := f;
    }
  }

  lemma NewestUnique(g: Gateway, a: Frame, b: Frame, fs: seq<Frame>)
    requires Consistent(g, fs) && Newest(g, a, fs) && Newest(g, b, fs) && SourceIn(g, a) == SourceIn(g, b)
    ensures a == b
  {
  }

  // What is newest after one more frame.
  lemma NewestAfter(g: Gateway, fs: seq<Frame>, f: Frame, x: Frame)
    ensures !Acceptable(g, f) ==> (Newest(g, x, fs + [f]) <==> Newest(g, x, fs))
    ensures Acceptable(g, f) && Acceptable(g, x) && SourceIn(g, x) != SourceIn(g, f) ==>
      (Newest(g, x, fs + [f]) <==> Newest(g, x, fs))
    ensures Acceptable(g, f) && Newest(g, x, fs) && SourceIn(g, x) == SourceIn(g, f) && Sequence(g, f) <= Sequence(g, x) ==>
      Newest(g, x, fs + [f])
  {
  }

  // The frame changes nothing and is not newest, or it was delivered before.
  lemma Unmoved(t: Tables, g: Gateway, fs: seq<Frame>, f: Frame)
    requires Reflects(t, g, fs) && Consistent(g, fs + [f])
    requires Acceptable(g, f) ==>
      exists n :: Newest(g, n, fs) && SourceIn(g, n) == SourceIn(g, f) && Sequence(g, f) <= Sequence(g, n)
    ensures Reflects(t, g, fs + [f])
  {
    hide HoldsFrame;
    forall x | Newest(g, x, fs + [f]) ensures Newest(g, x, fs) {
      NewestAfter(g, fs, f, x);
      if Acceptable(g, f) && SourceIn(g, x) == SourceIn(g, f) {
        var n :| Newest(g, n, fs) && SourceIn(g, n) == SourceIn(g, f) && Sequence(g, f) <= Sequence(g, n);
        NewestAfter(g, fs, f, n);
        NewestUnique(g, x, n, fs + [f]);
      }
    }
    forall x | Newest(g, x, fs) ensures Newest(g, x, fs + [f]) {
      NewestAfter(g, fs, f, x);
      if Acceptable(g, f) && SourceIn(g, x) == SourceIn(g, f) {
        var n :| Newest(g, n, fs) && SourceIn(g, n) == SourceIn(g, f) && Sequence(g, f) <= Sequence(g, n);
        NewestAfter(g, fs, f, n);
      }
    }
  }

  // The frame overtakes all of its source.
  lemma Overtaken(t: Tables, g: Gateway, fs: seq<Frame>, f: Frame)
    requires Reflects(t, g, fs) && Consistent(g, fs + [f]) && Acceptable(g, f)
    requires forall a :: a in fs && Acceptable(g, a) && SourceIn(g, a) == SourceIn(g, f) ==> Sequence(g, a) <= Sequence(g, f)
    ensures Reflects(Written(t, g, f), g, fs + [f])
  {
    var t', fs' := Written(t, g, f), fs + [f];
    var source := SourceIn(g, f);
    assert f in fs' && Newest(g, f, fs');
    forall x | Newest(g, x, fs') ensures HoldsFrame(t', g, x) {
      if SourceIn(g, x) == source {
        NewestUnique(g, x, f, fs');
      } else {
        NewestAfter(g, fs, f, x);
        assert HoldsFrame(t, g, x);
        assert Compatible(g, x, f);
      }
    }
    forall id | id in t'.heads ensures exists x :: Newest(g, x, fs') && g.headId(SourceIn(g, x)) == id {
      if id != g.headId(source) {
        var x :| Newest(g, x, fs) && g.headId(SourceIn(g, x)) == id;
        NewestAfter(g, fs, f, x);
        assert Newest(g, x, fs');
      }
    }
    forall s | s in t'.memory ensures exists x :: Newest(g, x, fs') && SourceIn(g, x) == s {
      if s != source {
        var x :| Newest(g, x, fs) && SourceIn(g, x) == s;
        NewestAfter(g, fs, f, x);
        assert Newest(g, x, fs');
      }
    }
  }

  // Every source that delivered an acceptable frame has a head.
  lemma HeadsKnown(t: Tables, g: Gateway, fs: seq<Frame>)
    requires Reflects(t, g, fs)
    ensures forall a :: a in fs && Acceptable(g, a) ==> g.headId(SourceIn(g, a)) in t.heads
  {
    forall a | a in fs && Acceptable(g, a) ensures g.headId(SourceIn(g, a)) in t.heads {
      var n := NewestExists(g, a, fs);
      assert HoldsFrame(t, g, n);
    }
  }

  lemma ImportReflects(t: Tables, g: Gateway, fs: seq<Frame>, f: Frame)
    requires Reflects(t, g, fs) && Consistent(g, fs + [f])
    ensures Reflects(Imported(t, g, f).0, g, fs + [f])
  {
    hide Written;
    if !Acceptable(g, f) {
      Unmoved(t, g, fs, f);
    } else {
      var id := g.headId(SourceIn(g, f));
      HeadsKnown(t, g, fs);
      if id in t.heads {
        var n :| Newest(g, n, fs) && g.headId(SourceIn(g, n)) == id;
        assert HoldsFrame(t, g, n);
        assert n in fs + [f] && f in fs + [f] && Compatible(g, n, f);
        if Sequence(g, f) <= Sequence(g, n) {
          Unmoved(t, g, fs, f);
        } else {
          Overtaken(t, g, fs, f);
        }
      } else {
        Overtaken(t, g, fs, f);
      }
    }
  }

  lemma {:induction false} DeliveryReflects(g: Gateway, fs: seq<Frame>)
    requires Consistent(g, fs)
    ensures Reflects(Delivered(NO_TABLES, g, fs), g, fs)
  {
    hide Imported, Reflects;
    if fs == [] {
      NothingDelivered(g);
    } else {
      var front, last := fs[..|fs| - 1], fs[|fs| - 1];
      assert fs == front + [last];
      DeliveryReflects(g, front);
      ImportReflects(Delivered(NO_TABLES, g, front), g, front, last);
    }
  }

  // The same for consistent deliveries, from the first frame on: what the next frame is answered can be
  // told from the frames that have been delivered.
  lemma DeliveryAnswers(g: Gateway, fs: seq<Frame>, f: Frame)
    requires Consistent(g, fs + [f])
    ensures var r := Imported(Delivered(NO_TABLES, g, fs), g, f).1;
            && (r.Ok? <==> Acceptable(g, f) && Newest(g, f, fs + [f]))
            && (r.Ok? ==> r.value == Receipt(SourceIn(g, f), Sequence(g, f), f !in fs, Deletes(g, f)))
  {
    hide Imported;
    var t := Delivered(NO_TABLES, g, fs);
    ImportExact(t, g, f);
    assert f in fs + [f] && forall a :: a in fs ==> a in fs + [f];
    DeliveryReflects(g, fs);
    HeadsKnown(t, g, fs);
    if Acceptable(g, f) && g.headId(SourceIn(g, f)) in t.heads {
      var n :| Newest(g, n, fs) && g.headId(SourceIn(g, n)) == g.headId(SourceIn(g, f));
      assert HoldsFrame(t, g, n) && Compatible(g, n, f);
      assert Newest(g, f, fs + [f]) ==> Sequence(g, n) <= Sequence(g, f);
    }
  }

  lemma NothingDelivered(g: Gateway)
    ensures Reflects(NO_TABLES, g, [])
  {
  }

  ghost predicate Extends<K(!new), V>(m: map<K, V>, m': map<K, V>) {
    forall k :: k in m ==> k in m' && m'[k] == m[k]
  }

  // What one table holds for a set of frames, every other table for them holds too.
  lemma ReflectsWithin(t: Tables, t': Tables, g: Gateway, fs: seq<Frame>, fs': seq<Frame>)
    requires Reflects(t, g, fs) && Reflects(t', g, fs') && forall f :: f in fs <==> f in fs'
    ensures Extends(t.heads, t'.heads) && Extends(t.memory, t'.memory)
  {
    assert forall f :: Newest(g, f, fs) <==> Newest(g, f, fs');
    forall id | id in t.heads ensures id in t'.heads && t'.heads[id] == t.heads[id] {
      var f :| Newest(g, f, fs) && g.headId(SourceIn(g, f)) == id;
      assert HoldsFrame(t, g, f) && HoldsFrame(t', g, f);
    }
    forall s | s in t.memory ensures s in t'.memory && t'.memory[s] == t.memory[s] {
      var f :| Newest(g, f, fs) && SourceIn(g, f) == s;
      assert HoldsFrame(t, g, f) && HoldsFrame(t', g, f);
    }
  }

  lemma SameMap<K(!new), V>(m: map<K, V>, m': map<K, V>)
    requires Extends(m, m') && Extends(m', m)
    ensures m == m'
  {
  }

  lemma ReflectsUnique(t: Tables, t': Tables, g: Gateway, fs: seq<Frame>, fs': seq<Frame>)
    requires Reflects(t, g, fs) && Reflects(t', g, fs') && forall f :: f in fs <==> f in fs'
    ensures t == t'
  {
    hide Reflects, Extends;
    ReflectsWithin(t, t', g, fs, fs');
    ReflectsWithin(t', t, g, fs', fs);
    SameMap(t.heads, t'.heads);
    SameMap(t.memory, t'.memory);
  }

  // Whatever the order and however often frames are repeated, the tables end up the same.
  lemma DeliveryConverges(g: Gateway, fs: seq<Frame>, fs': seq<Frame>)
    requires Consistent(g, fs) && forall f :: f in fs <==> f in fs'
    ensures Delivered(NO_TABLES, g, fs) == Delivered(NO_TABLES, g, fs')
    ensures Reflects(Delivered(NO_TABLES, g, fs), g, fs)
  {
    hide Reflects;
    assert Consistent(g, fs');
    DeliveryReflects(g, fs);
    DeliveryReflects(g, fs');
    ReflectsUnique(Delivered(NO_TABLES, g, fs), Delivered(NO_TABLES, g, fs'), g, fs, fs');
  }
}
