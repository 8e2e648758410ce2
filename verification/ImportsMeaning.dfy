/** What binding the imports means: every slot holds the address of the function that its thunk named, and
    nothing else changes. */
module ImportsMeaning {
  import opened Bits
  import opened Words
  import opened Relocation
  import opened Imports
  import Loader

  /** The system has the n-th library asked for. */
  function HandleOf(libs: seq<Library>, n: nat, system: System, i: nat): nat
    requires i < |libs|
  {
    system.open(n + i, libs[i].name)
  }

  predicate AllFound(ws: seq<Wanted>, handle: nat, find: (nat, Wanted) -> u64) {
    forall j :: 0 <= j < |ws| ==> find(handle, ws[j]) != 0
  }

  /** The library is there with all its functions. */
  predicate Complete(libs: seq<Library>, n: nat, system: System, i: nat)
    requires i < |libs|
  {
    HandleOf(libs, n, system, i) != 0 && AllFound(libs[i].wanted, HandleOf(libs, n, system, i), system.find)
  }

  // ---------------------------------------------------------------- one library

  /** The slots get all addresses, one behind the other, iff every function is found. */
  lemma {:induction false} SlotBytesExact(ws: seq<Wanted>, handle: nat, find: (nat, Wanted) -> u64)
    ensures var s := SlotBytes(ws, handle, find);
            && (s.ok <==> AllFound(ws, handle, find))
            && (s.ok ==> forall j :: 0 <= j < |ws| ==> s.bytes[8 * j..8 * j + 8] == Encode(find(handle, ws[j]), 8))
    decreases |ws|
  {
    hide Encode;
    if ws != [] {
      var rest := SlotBytes(ws[1..], handle, find);
      SlotBytesExact(ws[1..], handle, find);
      assert forall j :: 0 <= j < |ws| - 1 ==> ws[1..][j] == ws[j + 1];
      if find(handle, ws[0]) != 0 && rest.ok {
        var first := Encode(find(handle, ws[0]), 8);
        forall j | 0 <= j < |ws|
          ensures (first + rest.bytes)[8 * j..8 * j + 8] == Encode(find(handle, ws[j]), 8)
        {
          if j > 0 {
            assert rest.bytes[8 * (j - 1)..8 * (j - 1) + 8] == Encode(find(handle, ws[1..][j - 1]), 8);
            assert (first + rest.bytes)[8 * j..8 * j + 8] == rest.bytes[8 * (j - 1)..8 * (j - 1) + 8];
          } else {
            assert (first + rest.bytes)[..8] == first;
          }
        }
      }
    }
  }

  // ---------------------------------------------------------------- all libraries

  lemma RestComplete(libs: seq<Library>, n: nat, system: System, rest: seq<Library>, next: nat)
    requires libs != [] && rest == libs[1..] && next == n + 1
    ensures forall i :: 0 <= i < |rest| ==>
              && HandleOf(rest, next, system, i) == HandleOf(libs, n, system, i + 1)
              && (Complete(rest, next, system, i) <==> Complete(libs, n, system, i + 1))
  {
    forall i | 0 <= i < |rest|
      ensures HandleOf(rest, next, system, i) == HandleOf(libs, n, system, i + 1)
      ensures Complete(rest, next, system, i) <==> Complete(libs, n, system, i + 1)
    {
      assert rest[i] == libs[i + 1] && next + i == n + (i + 1);
    }
  }

  ghost predicate AllComplete(libs: seq<Library>, n: nat, system: System, count: nat)
    requires count <= |libs|
  {
    forall i :: 0 <= i < count ==> Complete(libs, n, system, i)
  }

  /** The handles of the first libraries, all of them complete; the next one is not. */
  ghost predicate FirstHandles(libs: seq<Library>, n: nat, system: System, handles: seq<nat>) {
    && |handles| <= |libs|
    && (forall i :: 0 <= i < |handles| ==> handles[i] == HandleOf(libs, n, system, i))
    && AllComplete(libs, n, system, |handles|)
    && (|handles| < |libs| ==> !Complete(libs, n, system, |handles|))
  }

  /** Binding succeeds iff every library is there with all its functions. The libraries that stay referenced
      are those before the first that is not. */
  lemma {:induction false} BindsExactly(m: Bytes, libs: seq<Library>, n: nat, system: System)
    requires forall lib :: lib in libs ==> SlotsFit(lib, |m|)
    ensures var r := BindAll(m, libs, n, system);
            && FirstHandles(libs, n, system, r.handles)
            && (r.ok <==> |r.handles| == |libs|)
    decreases |libs|
  {
    hide SlotBytes, Written, AllFound, SlotsFit;
    if libs != [] {
      var handle, m' := HandleOf(libs, n, system, 0), m;
      assert libs[0] in libs && SlotsFit(libs[0], |m|);
      SlotBytesExact(libs[0].wanted, handle, system.find);
      RestComplete(libs, n, system, libs[1..], n + 1);
      if Complete(libs, n, system, 0) {
        var s := SlotBytes(libs[0].wanted, handle, system.find);
        FitsWritten(m, libs[0], s.bytes);
        var after := Written(m, libs[0].slots, s.bytes);
        BindsExactly(after, libs[1..], n + 1, system);
        ShiftedHandles(libs, n, system, handle, BindAll(after, libs[1..], n + 1, system).handles);
      }
    }
  }

  lemma FitsWritten(m: Bytes, lib: Library, bytes: Bytes)
    requires SlotsFit(lib, |m|) && |bytes| <= 8 * |lib.wanted|
    ensures bytes != [] ==> lib.slots + |bytes| <= |m|
  {
  }

  lemma ShiftedHandles(libs: seq<Library>, n: nat, system: System, handle: nat, rest: seq<nat>)
    requires libs != [] && |rest| < |libs| && handle == HandleOf(libs, n, system, 0) && Complete(libs, n, system, 0)
    requires forall i :: 0 <= i < |rest| ==> rest[i] == HandleOf(libs[1..], n + 1, system, i)
    requires AllComplete(libs[1..], n + 1, system, |rest|)
    ensures forall i :: 0 <= i < |rest| + 1 ==> ([handle] + rest)[i] == HandleOf(libs, n, system, i)
    ensures AllComplete(libs, n, system, |rest| + 1)
  {
    hide Complete;
    RestComplete(libs, n, system, libs[1..], n + 1);
    forall i | 0 <= i < |rest| + 1
      ensures ([handle] + rest)[i] == HandleOf(libs, n, system, i) && Complete(libs, n, system, i)
    {
      if i > 0 {
        assert rest[i - 1] == HandleOf(libs[1..], n + 1, system, i - 1);
        assert Complete(libs[1..], n + 1, system, i - 1);
      }
    }
  }

  predicate SlotsClear(lib: Library, lo: nat, hi: nat) {
    lib.wanted == [] || SlotsEnd(lib) <= lo || hi <= lib.slots
  }

  lemma WrittenElsewhere(m: Bytes, lib: Library, bytes: Bytes, o: nat, k: nat)
    requires SlotsFit(lib, |m|) && |bytes| <= 8 * |lib.wanted| && o + k <= |m| && SlotsClear(lib, o, o + k)
    ensures bytes != [] ==> lib.slots + |bytes| <= |m|
    ensures Written(m, lib.slots, bytes)[o..o + k] == m[o..o + k]
  {
    if bytes != [] {
      assert lib.wanted != [];
      FieldAfterSplice(m, lib.slots, bytes, o, k);
    }
  }

  /** Whether or not binding succeeds, bytes outside all slots keep their value. */
  lemma {:induction false} OutsideSlotsKept(m: Bytes, libs: seq<Library>, n: nat, system: System, o: nat, k: nat)
    requires (forall lib :: lib in libs ==> SlotsFit(lib, |m|)) && o + k <= |m|
    requires forall lib :: lib in libs ==> SlotsClear(lib, o, o + k)
    ensures BindAll(m, libs, n, system).image[o..o + k] == m[o..o + k]
    decreases |libs|
  {
    hide SlotBytes, Written, SlotsFit, SlotsClear;
    if libs != [] {
      assert libs[0] in libs;
      var s := SlotBytes(libs[0].wanted, HandleOf(libs, n, system, 0), system.find);
      WrittenElsewhere(m, libs[0], s.bytes, o, k);
      assert forall lib :: lib in libs[1..] ==> lib in libs;
      OutsideSlotsKept(Written(m, libs[0].slots, s.bytes), libs[1..], n + 1, system, o, k);
    }
  }

  /** No two libraries share a slot. */
  ghost predicate SlotsApart(libs: seq<Library>) {
    forall i, j :: 0 <= i < j < |libs| && libs[i].wanted != [] ==>
      SlotsClear(libs[j], libs[i].slots, SlotsEnd(libs[i]))
  }

  /** The j-th slot of the i-th library. */
  function SlotOf(libs: seq<Library>, i: nat, j: nat): nat
    requires i < |libs|
  {
    libs[i].slots + 8 * j
  }

  /** After successful binding every slot of every library holds the address of its function. */
  lemma {:induction false} EverySlotBound(m: Bytes, libs: seq<Library>, n: nat, system: System, i: nat, j: nat)
    requires (forall lib :: lib in libs ==> SlotsFit(lib, |m|)) && SlotsApart(libs)
    requires BindAll(m, libs, n, system).ok && i < |libs| && j < |libs[i].wanted|
    ensures SlotOf(libs, i, j) + 8 <= |m|
    ensures var address := system.find(HandleOf(libs, n, system, i), libs[i].wanted[j]);
            && address != 0
            && Read64(BindAll(m, libs, n, system).image, SlotOf(libs, i, j)) == address
    decreases |libs|
  {
    hide SlotBytes, Written, SlotsClear, AllFound, Read64, Encode, SlotsFit, SlotsApart;
    assert libs[i] in libs && libs[0] in libs;
    var s := SlotBytes(libs[0].wanted, HandleOf(libs, n, system, 0), system.find);
    FitsWritten(m, libs[0], s.bytes);
    var after, rest := Written(m, libs[0].slots, s.bytes), libs[1..];
    RestSlotsApart(libs);
    if i == 0 {
      SlotInLibrary(m, libs[0], HandleOf(libs, n, system, 0), system.find, j);
      OutsideSlotsKept(after, rest, n + 1, system, SlotOf(libs, 0, j), 8);
      SameSlot(after, BindAll(after, rest, n + 1, system).image, SlotOf(libs, 0, j));
    } else {
      EverySlotBound(after, rest, n + 1, system, i - 1, j);
      assert rest[i - 1] == libs[i] && n + 1 + (i - 1) == n + i;
    }
  }

  lemma SameSlot(m: Bytes, m': Bytes, at: nat)
    requires |m| == |m'| && at + 8 <= |m| && m'[at..at + 8] == m[at..at + 8]
    ensures Read64(m', at) == Read64(m, at)
  {
  }

  lemma RestSlotsApart(libs: seq<Library>)
    requires SlotsApart(libs) && libs != []
    ensures SlotsApart(libs[1..])
    ensures forall j: nat, lib :: j < |libs[0].wanted| && lib in libs[1..] ==>
              SlotsClear(lib, SlotOf(libs, 0, j), SlotOf(libs, 0, j) + 8)
  {
    var rest := libs[1..];
    assert forall i :: 0 <= i < |rest| ==> rest[i] == libs[i + 1];
    forall j: nat, lib | j < |libs[0].wanted| && lib in rest
      ensures SlotsClear(lib, SlotOf(libs, 0, j), SlotOf(libs, 0, j) + 8)
    {
      var k :| 0 <= k < |rest| && rest[k] == lib;
      assert SlotsClear(libs[k + 1], libs[0].slots, SlotsEnd(libs[0]));
    }
  }

  lemma SlotInLibrary(m: Bytes, lib: Library, handle: nat, find: (nat, Wanted) -> u64, j: nat)
    requires SlotsFit(lib, |m|) && j < |lib.wanted| && SlotBytes(lib.wanted, handle, find).ok
    ensures var at, s := lib.slots + 8 * j, SlotBytes(lib.wanted, handle, find);
            && at + 8 <= |m| && lib.slots + |s.bytes| <= |m| && s.bytes != []
            && find(handle, lib.wanted[j]) != 0
            && Read64(Written(m, lib.slots, s.bytes), at) == find(handle, lib.wanted[j])
  {
    hide SlotBytes, Encode, Decode;
    var s := SlotBytes(lib.wanted, handle, find);
    SlotBytesExact(lib.wanted, handle, find);
    var r := Splice(m, lib.slots, s.bytes);
    assert r[lib.slots..lib.slots + |s.bytes|][8 * j..8 * j + 8] == r[lib.slots + 8 * j..lib.slots + 8 * j + 8];
    DecodeOfEncode(find(handle, lib.wanted[j]), 8);
    Spans();
  }

  // ---------------------------------------------------------------- tables that do not disturb each other

  /** No name that the thunks lead to lies between lo and hi. */
  predicate NamesClear(m: Bytes, ref: nat, slot: nat, lo: nat, hi: nat)
    requires ThunksReadable(m, ref, slot)
    decreases |m| - ref
  {
    Read64(m, ref) != 0 ==> ThunkClear(m, Read64(m, ref), lo, hi) && NamesClear(m, ref + 8, slot + 8, lo, hi)
  }

  lemma {:induction false} ThunksAreClear(m: Bytes, ref: nat, slot: nat, lo: nat, hi: nat, lo': nat, hi': nat)
    requires ThunksReadable(m, ref, slot) && NamesClear(m, ref, slot, lo, hi) && lo <= lo' <= hi' <= hi
    requires Clear(ref, 8 * |ThunksAt(m, ref, slot)| + 8, lo', hi')
    ensures ThunksClear(m, ref, slot, lo', hi')
    decreases |m| - ref
  {
    hide NameAt, NameEnds;
    if Read64(m, ref) != 0 {
      ThunksAreClear(m, ref + 8, slot + 8, lo, hi, lo', hi');
    }
  }

  /** With all names outside the slots it does no harm to read the thunks from the slots themselves, or from
      a hint table that is outside as well. */
  lemma {:induction false} NamesOutsideSuffice(m: Bytes, ref: nat, slot: nat, lo: nat, hi: nat)
    requires ThunksReadable(m, ref, slot) && NamesClear(m, ref, slot, lo, hi)
    requires lo <= slot && slot + 8 * |ThunksAt(m, ref, slot)| <= hi
    requires ref == slot || Clear(ref, 8 * |ThunksAt(m, ref, slot)| + 8, lo, hi)
    ensures ThunksTidy(m, ref, slot)
    decreases |m| - ref
  {
    hide NameAt, NameEnds, ThunksClear;
    if Read64(m, ref) != 0 {
      ThunksAreClear(m, ref + 8, slot + 8, lo, hi, slot, slot + 8);
      NamesOutsideSuffice(m, ref + 8, slot + 8, lo, hi);
    }
  }

  // ---------------------------------------------------------------- the load as a whole

  /** What the resources of a load depend on: for each library, which of its functions are found. */
  function FoundIn(libs: seq<Library>, n: nat, system: System): (imports: seq<Loader.Import>)
    ensures |imports| == |libs|
  {
    seq(|libs|, i requires 0 <= i < |libs| => FoundOf(libs[i].wanted, HandleOf(libs, n, system, i), system.find))
  }

  function FoundOf(ws: seq<Wanted>, handle: nat, find: (nat, Wanted) -> u64): Loader.Import {
    Loader.Import(seq(|ws|, j requires 0 <= j < |ws| => find(handle, ws[j]) != 0))
  }

  /** The handles that the system answers with, by the number of the call. */
  ghost predicate Answered(libs: seq<Library>, n: nat, system: System, libraries: nat -> nat) {
    forall i :: 0 <= i < |libs| ==> libraries(n + i) == HandleOf(libs, n, system, i)
  }

  /** Binding succeeds exactly when the load counts the imports as importable. */
  lemma {:induction false} AgreesWithLoad(libs: seq<Library>, n: nat, system: System, libraries: nat -> nat)
    requires Answered(libs, n, system, libraries)
    ensures Loader.Importable(libraries, n, FoundIn(libs, n, system)) <==> AllComplete(libs, n, system, |libs|)
    decreases |libs|
  {
    hide AllFound, HandleOf;
    if libs != [] {
      var rest := libs[1..];
      RestComplete(libs, n, system, libs[1..], n + 1);
      RestAnswered(libs, n, system, libraries, rest, n + 1);
      AgreesWithLoad(rest, n + 1, system, libraries);
      FoundIsAllFound(libs[0].wanted, HandleOf(libs, n, system, 0), system.find);
      RestFound(libs, n, system);
      assert libraries(n) == libraries(n + 0);
      assert AllComplete(libs, n, system, |libs|) ==> AllComplete(rest, n + 1, system, |rest|);
      if AllComplete(rest, n + 1, system, |rest|) && Complete(libs, n, system, 0) {
        forall i | 0 <= i < |libs|
          ensures Complete(libs, n, system, i)
        {
          assert i > 0 ==> Complete(rest, n + 1, system, i - 1);
        }
      }
    }
  }

  lemma RestAnswered(libs: seq<Library>, n: nat, system: System, libraries: nat -> nat, rest: seq<Library>, next: nat)
    requires Answered(libs, n, system, libraries) && libs != [] && rest == libs[1..] && next == n + 1
    ensures Answered(rest, next, system, libraries)
  {
    forall i | 0 <= i < |rest|
      ensures libraries(next + i) == HandleOf(rest, next, system, i)
    {
      assert next + i == n + (i + 1) && rest[i] == libs[i + 1];
      assert libraries(n + (i + 1)) == HandleOf(libs, n, system, i + 1);
    }
  }

  lemma FoundIsAllFound(ws: seq<Wanted>, handle: nat, find: (nat, Wanted) -> u64)
    ensures Loader.AllFound(FoundOf(ws, handle, find)) <==> AllFound(ws, handle, find)
  {
    var found := FoundOf(ws, handle, find).found;
    assert forall j :: 0 <= j < |ws| ==> (found[j] <==> find(handle, ws[j]) != 0);
  }

  lemma RestFound(libs: seq<Library>, n: nat, system: System)
    requires libs != []
    ensures FoundIn(libs, n, system)[1..] == FoundIn(libs[1..], n + 1, system)
    ensures FoundIn(libs, n, system)[0] == FoundOf(libs[0].wanted, HandleOf(libs, n, system, 0), system.find)
  {
    hide FoundOf;
    forall i | 0 <= i < |libs| - 1
      ensures FoundIn(libs, n, system)[1..][i] == FoundIn(libs[1..], n + 1, system)[i]
    {
      assert libs[1..][i] == libs[i + 1] && n + 1 + i == n + (i + 1);
    }
  }
}
