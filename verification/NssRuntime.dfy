/** The process-global NSS runtime: what each operation under its lock does, and what every interleaving of
    runtime, cache and connection calls keeps. */
module NssRuntime {
  import opened Wrappers
  import opened Bytes
  import opened BigEndian
  import opened TrustAnchors

  const U32_MAX := 0xFFFF_FFFF

  datatype Profile = Firefox140 | Firefox152
  datatype Outcome = Ok | InvalidArgument | OutOfMemory | BadState | IoFailure | TimedOut | TlsFailure | CertificateFailure

  datatype Loaded = Loaded(directory: bytes, profile: Profile)

  /** What a caller of runtime_create asks for. */
  datatype Config = Config(loaded: Loaded, bundle: bytes)

  /** The shared state as a value; `live` counts the temporary certificates NSS holds for it. */
  datatype Global = Global(references: nat, loaded: Option<Loaded>, bundle: bytes, live: multiset<bytes>) {
    ghost predicate Valid() {
      && references <= U32_MAX
      && (references > 0 ==> loaded.Some?)
      && (references == 0 ==> bundle == [])
      && AnchorsFrom(bundle, 0).Some? && live == multiset(AnchorsFrom(bundle, 0).value)
    }

    predicate Serves(c: Config) {
      loaded == Some(c.loaded) && bundle == c.bundle
    }
  }

  /** What one acquisition may do, by what it reports. */
  ghost predicate Acquires(g: Global, c: Config, h: Global, r: Outcome) {
    && (r == Ok ==> h.references == g.references + 1 && h.Serves(c))
    && (r == Ok ==> AnchorsFrom(c.bundle, 0).Some? && h.live == multiset(AnchorsFrom(c.bundle, 0).value))
    && (r == InvalidArgument ==> AnchorsFrom(c.bundle, 0).None?)
    && (r != Ok ==> h.references == g.references && h.bundle == g.bundle && h.live == g.live)
    && (g.loaded.Some? ==> h.loaded == g.loaded)
    && (h.loaded != g.loaded ==> h.loaded == Some(c.loaded))
    && (g.references > 0 ==> r in {Ok, BadState} && (r == Ok <==> g.Serves(c) && g.references < U32_MAX))
    && (g.references == 0 && g.loaded.Some? && g.loaded != Some(c.loaded) ==> r == BadState)
  }

  /** The last release drops the anchors and keeps the loaded runtime. */
  function Released(g: Global): Global {
    if g.references == 0 then g
    else if g.references == 1 then Global(0, g.loaded, [], multiset{})
    else g.(references := g.references - 1)
  }

  lemma EmptyBundle()
    ensures AnchorsFrom([], 0) == Some([])
  {}

  lemma OnlyEmptyIsEmpty(bundle: bytes)
    requires AnchorsFrom(bundle, 0) == Some([])
    ensures bundle == []
  {}

  /** A bundle the validator accepted holds the next anchor where the install loop looks for it. */
  lemma NextAnchor(bundle: bytes, offset: nat, anchors: seq<bytes>, index: nat)
    requires offset <= |bundle| && index < |anchors| && AnchorsFrom(bundle, offset) == Some(anchors[index..])
    ensures offset + 4 <= |bundle|
    ensures var b0: int, b1: int, b2: int, b3: int := bundle[offset], bundle[offset + 1], bundle[offset + 2], bundle[offset + 3];
            var next := offset + 4 + (b0 * 0x100_0000 + b1 * 0x1_0000 + b2 * 0x100 + b3);
            && next <= |bundle| && bundle[offset + 4..next] == anchors[index]
            && AnchorsFrom(bundle, next) == Some(anchors[index + 1..])
  {
    assert anchors[index..][0] == anchors[index] && anchors[index..][1..] == anchors[index + 1..];
    Word(bundle[offset..offset + 4]);
  }

  class GlobalRuntime {
    var references: nat
    var nss3: bool
    var directory: Option<bytes>
    var profile: Option<Profile>
    var trustBundle: bytes
    var certificates: seq<bytes>
    /** The temporary certificates that NSS holds, by content. */
    var database: multiset<bytes>

    ghost predicate Valid()
      reads this
    {
      && (nss3 <==> directory.Some?) && (nss3 <==> profile.Some?)
      && database == multiset(certificates)
      && AnchorsFrom(trustBundle, 0) == Some(certificates)
      && View().Valid()
    }

    ghost function View(): Global
      reads this
    {
      var loaded := if directory.Some? && profile.Some? then Some(Loaded(directory.value, profile.value)) else None;
      Global(references, loaded, trustBundle, database)
    }

    constructor ()
      ensures Valid() && View() == Global(0, None, [], multiset{})
    {
      references, nss3, directory, profile := 0, false, None, None;
      trustBundle, certificates, database := [], [], multiset{};
    }

    /** Loading succeeds or leaves nothing loaded. */
    method LoadLocked(wantedDirectory: bytes, wantedProfile: Profile) returns (ok: bool)
      requires Valid() && references == 0 && !nss3
      modifies `nss3, `directory, `profile
      ensures Valid()
      ensures View() == if ok then old(View()).(loaded := Some(Loaded(wantedDirectory, wantedProfile))) else old(View())
    {
      ok := *;
      if ok {
        nss3, directory, profile := true, Some(wantedDirectory), Some(wantedProfile);
      }
    }

    method ClearTrustLocked()
      requires database == multiset(certificates)
      modifies `trustBundle, `certificates, `database
      ensures trustBundle == [] && certificates == [] && database == multiset{}
    {
      var index := 0;
      while index < |certificates|
        invariant index <= |certificates| && certificates == old(certificates)
        invariant database == multiset(certificates[index..])
      {
        assert certificates[index..] == [certificates[index]] + certificates[index + 1..];
        database := database - multiset{certificates[index]};
        index := index + 1;
      }
      certificates := [];
      trustBundle := [];
    }

    /** Destroys the certificates imported so far. */
    method DestroyImported(imported: array<Option<bytes>>, index: nat, ghost before: multiset<bytes>)
      requires index < imported.Length
      requires forall i :: 0 <= i < index ==> imported[i].Some?
      requires database == before + Imported(imported[..index + 1])
      modifies `database
      ensures database == before
    {
      var cleanup := 0;
      while cleanup <= index
        invariant cleanup <= index + 1
        invariant database == before + Imported(imported[cleanup..index + 1])
      {
        assert imported[cleanup..index + 1][1..] == imported[cleanup + 1..index + 1];
        if imported[cleanup].Some? {
          database := database - multiset{imported[cleanup].value};
        }
        cleanup := cleanup + 1;
      }
    }

    /** One certificate is imported and then marked as trusted; either call may fail. */
    method ImportOne(imported: array<Option<bytes>>, index: nat, item: bytes) returns (trusted: bool)
      requires index < imported.Length && imported[index].None? && database == Imported(imported[..index])
      modifies imported, `database
      ensures forall i :: 0 <= i < imported.Length && i != index ==> imported[i] == old(imported[i])
      ensures database == Imported(imported[..index + 1])
      ensures trusted ==> imported[index] == Some(item)
    {
      hide Imported;
      var refused: bool := *;
      if !refused {
        imported[index] := Some(item);
        database := database + multiset{item};
      }
      ImportedSnoc(imported[..index], imported[index]);
      assert imported[..index + 1] == imported[..index] + [imported[index]];
      trusted := *;
      trusted := trusted && !refused;
    }

    /** Either every anchor of the bundle becomes one certificate, in order, or nothing changes. The loop reads the
        bundle without checking bounds; the validator's verdict is what keeps it inside. */
    method InstallTrustLocked(bundle: bytes) returns (r: Outcome)
      requires Valid() && references == 0
      modifies `trustBundle, `certificates, `database
      ensures r == Ok ==> trustBundle == bundle && AnchorsFrom(bundle, 0) == Some(certificates)
      ensures r == Ok ==> database == multiset(certificates)
      ensures r != Ok ==> trustBundle == [] && certificates == [] && database == multiset{}
      ensures r == InvalidArgument <==> AnchorsFrom(bundle, 0).None?
      ensures r in {Ok, InvalidArgument, OutOfMemory, CertificateFailure}
    {
      hide AnchorsFrom, Imported, Values;
      EmptyBundle();
      ImportedNone();
      var valid, count := TrustBundleIsValid(bundle);
      if !valid {
        return InvalidArgument;
      }
      ghost var anchors := AnchorsFrom(bundle, 0).value;
      if count == 0 {
        OnlyEmptyIsEmpty(bundle);
        return Ok;
      }
      var exhausted: bool := *;
      if exhausted {
        return OutOfMemory;
      }
      var unavailable: bool := *;
      if unavailable {
        return CertificateFailure;
      }
      var imported := new Option<bytes>[count](_ => None);
      var index := 0;
      var offset: nat := 0;
      assert anchors[0..] == anchors && imported[..0] == [];
      while index < count
        invariant index <= count == imported.Length && offset <= |bundle|
        invariant AnchorsFrom(bundle, offset) == Some(anchors[index..])
        invariant forall i :: 0 <= i < index ==> imported[i] == Some(anchors[i])
        invariant forall i :: index <= i < count ==> imported[i] == None
        invariant database == Imported(imported[..index])
        invariant trustBundle == [] && certificates == []
      {
        NextAnchor(bundle, offset, anchors, index);
        var b0: int, b1: int, b2: int, b3: int := bundle[offset], bundle[offset + 1], bundle[offset + 2], bundle[offset + 3];
        var itemLength := b0 * 0x100_0000 + b1 * 0x1_0000 + b2 * 0x100 + b3;
        offset := offset + 4;
        var item := bundle[offset..offset + itemLength];
        var trusted := ImportOne(imported, index, item);
        if !trusted {
          DestroyImported(imported, index, multiset{});
          return CertificateFailure;
        }
        offset := offset + itemLength;
        index := index + 1;
      }
      trustBundle := bundle;
      certificates := Values(imported[..]);
      assert imported[..count] == imported[..];
      ImportedValues(imported[..]);
      assert certificates == anchors;
      return Ok;
    }

    /** `global_acquire` under the lock. */
    method Acquire(c: Config) returns (r: Outcome)
      requires Valid()
      modifies this
      ensures Valid() && Acquires(old(View()), c, View(), r)
    {
      hide AnchorsFrom;
      EmptyBundle();
      r := Ok;
      if references == 0 {
        if !nss3 {
          var loads := LoadLocked(c.loaded.directory, c.loaded.profile);
          if !loads {
            r := TlsFailure;
          } else {
            r := InstallTrustLocked(c.bundle);
            if r == Ok {
              references := 1;
            }
          }
        } else if directory.None? || profile.None? || profile.value != c.loaded.profile
                  || directory.value != c.loaded.directory {
          r := BadState;
        } else {
          r := InstallTrustLocked(c.bundle);
          if r == Ok {
            references := 1;
          }
        }
      } else if directory.None? || profile.None? || profile.value != c.loaded.profile
                || directory.value != c.loaded.directory {
        r := BadState;
      } else if c.bundle != trustBundle {
        r := BadState;
      } else if references == U32_MAX {
        r := BadState;
      } else {
        references := references + 1;
      }
    }

    /** `global_release` under the lock. */
    method Release()
      requires Valid()
      modifies this
      ensures Valid() && View() == Released(old(View()))
    {
      hide AnchorsFrom;
      EmptyBundle();
      if references > 0 {
        references := references - 1;
        if references == 0 {
          ClearTrustLocked();
        }
      }
    }
  }

  /** The certificates behind an array of import results. */
  function Values(s: seq<Option<bytes>>): (r: seq<bytes>)
    requires forall x <- s :: x.Some?
    ensures |r| == |s| && forall i :: 0 <= i < |s| ==> r[i] == s[i].value
  {
    if s == [] then [] else [s[0].value] + Values(s[1..])
  }

  function Imported(s: seq<Option<bytes>>): multiset<bytes> {
    if s == [] then multiset{}
    else (if s[0].Some? then multiset{s[0].value} else multiset{}) + Imported(s[1..])
  }

  lemma ImportedNone()
    ensures Imported([]) == multiset{}
  {}

  lemma {:induction false} ImportedSnoc(s: seq<Option<bytes>>, x: Option<bytes>)
    ensures Imported(s + [x]) == Imported(s) + (if x.Some? then multiset{x.value} else multiset{})
  {
    if s == [] {
      assert s + [x] == [x];
    } else {
      ImportedSnoc(s[1..], x);
      assert (s + [x])[1..] == s[1..] + [x];
    }
  }

  lemma {:induction false} ImportedValues(s: seq<Option<bytes>>)
    requires forall x <- s :: x.Some?
    ensures Imported(s) == multiset(Values(s))
  {
    if s != [] {
      ImportedValues(s[1..]);
    }
  }

  lemma FramedIsValid(anchors: seq<bytes>)
    requires Sized(anchors) && NonEmpty(anchors)
    ensures AnchorsFrom(Framed(anchors), 0) == Some(anchors)
  {
    AnchorsExact(Framed(anchors), 0, anchors);
    assert Framed(anchors)[0..] == Framed(anchors);
  }

  /** The whole way of the caller's anchors: parent frame body, child decoder, native bundle, C validator and
      install loop. Within the limits nothing on the way refuses them, and what is installed is what was given. */
  method DeliverAnchors(runtime: GlobalRuntime, anchors: seq<bytes>, loaded: Loaded)
    returns (r: Result<Outcome, AnchorError>)
    requires runtime.Valid()
    modifies runtime
    ensures runtime.Valid()
    ensures r.Success? <==>
            |anchors| <= MAX_ANCHORS && Sized(anchors) && NonEmpty(anchors) && |FrameBody(anchors)| <= MAX_BODY
    ensures r.Success? ==> r.value != InvalidArgument
    ensures r.Success? && r.value == Ok ==> runtime.certificates == anchors && runtime.database == multiset(anchors)
  {
    hide AnchorsFrom, Framed, Digits;
    var sent := EncodeAnchors(anchors);
    if sent.Failure? {
      return Failure(sent.error);
    }
    var received := DecodeAnchors(sent.value);
    assert Carries(sent.value, anchors) && received.Success?;
    FrameBodyInjective(received.value, anchors);
    var bundle := EncodeBundle(received.value);
    if bundle.Failure? {
      return Failure(bundle.error);
    }
    FramedIsValid(anchors);
    var outcome := runtime.Acquire(Config(loaded, bundle.value));
    return Success(outcome);
  }
}
