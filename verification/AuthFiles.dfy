/**
 * The auth directory as a map from paths to contents, and the file operations that write and rotate a
 * profile, one step at a time. A crash, or an operation that fails, leaves the state after some prefix
 * of the steps.
 */
module AuthFiles {
  import opened Text
  import opened Envelope

  datatype Path = Live(name: string) | Trash(name: string)
  type Files = map<Path, Bytes>

  datatype Op =
    | Create(path: Path)
    | Append(path: Path, bytes: Bytes)
    | Rename(source: Path, target: Path)
    | Remove(path: Path)

  function Apply(fs: Files, op: Op): Files {
    match op
    case Create(p) => fs[p := []]
    case Append(p, bytes) => fs[p := (if p in fs then fs[p] else []) + bytes]
    case Rename(a, b) => if a in fs then (fs - {a})[b := fs[a]] else fs
    case Remove(p) => fs - {p}
  }

  function Run(fs: Files, ops: seq<Op>): Files {
    if ops == [] then fs else Apply(Run(fs, ops[..|ops| - 1]), ops[|ops| - 1])
  }

  lemma {:induction false} RunConcat(fs: Files, a: seq<Op>, b: seq<Op>)
    ensures Run(fs, a + b) == Run(Run(fs, a), b)
  {
    if b == [] {
      assert a + b == a;
    } else {
      RunConcat(fs, a, b[..|b| - 1]);
      assert (a + b)[..|a + b| - 1] == a + b[..|b| - 1];
    }
  }

  /** A prefix of two phases is a prefix of the first, or the first and a prefix of the second. */
  lemma RunPrefix(fs: Files, a: seq<Op>, b: seq<Op>, k: nat)
    requires k <= |a + b|
    ensures k <= |a| ==> Run(fs, (a + b)[..k]) == Run(fs, a[..k])
    ensures k >= |a| ==> Run(fs, (a + b)[..k]) == Run(Run(fs, a), b[..k - |a|])
  {
    if k <= |a| {
      assert (a + b)[..k] == a[..k];
    }
    if k >= |a| {
      assert (a + b)[..k] == a + b[..k - |a|];
      RunConcat(fs, a, b[..k - |a|]);
    }
  }

  predicate Touches(op: Op, p: Path) {
    match op
    case Create(q) => p == q
    case Append(q, _) => p == q
    case Rename(a, b) => p == a || p == b
    case Remove(q) => p == q
  }

  predicate Untouched(fs: Files, fs': Files, p: Path) {
    (p in fs <==> p in fs') && (p in fs ==> fs'[p] == fs[p])
  }

  lemma {:induction false} RunLeavesAlone(fs: Files, ops: seq<Op>, p: Path)
    requires forall op :: op in ops ==> !Touches(op, p)
    ensures Untouched(fs, Run(fs, ops), p)
  {
    if ops != [] {
      RunLeavesAlone(fs, ops[..|ops| - 1], p);
      assert ops[|ops| - 1] in ops;
    }
  }

  // ----- names ------------------------------------------------------------------------------

  function Enc(profile: string): Path { Live(profile + ".enc") }
  function Meta(profile: string): Path { Live(profile + ".meta.json") }
  function TrashName(profile: string, ts: nat): string { profile + "." + Decimal(ts) + ".enc" }
  function Tmp(p: Path): Path { if p.Live? then Live(p.name + ".tmp") else Trash(p.name + ".tmp") }

  /** What the rotation of a profile takes for an older generation of it. */
  predicate IsGeneration(profile: string, name: string) {
    profile + "." <= name && EndsWith(name, ".enc")
  }

  lemma LastChar(a: string, b: string)
    requires b != ""
    ensures (a + b)[|a + b| - 1] == b[|b| - 1]
  {}

  lemma ConcatIsInjective(a: string, b: string, c: string)
    requires a + c == b + c
    ensures a == b
  {
    assert |a| == |b|;
    assert (a + c)[..|a|] == a && (b + c)[..|b|] == b;
  }

  /** The live files of two profiles never share a path, and no temporary file is a live one. */
  lemma LiveNamesAreApart(p: string, q: string)
    ensures Enc(p) == Enc(q) <==> p == q
    ensures Meta(p) == Meta(q) <==> p == q
    ensures Enc(p) != Meta(q)
    ensures Tmp(Enc(p)) !in {Enc(q), Meta(q)} && Tmp(Meta(p)) !in {Enc(q), Meta(q)}
  {
    if Enc(p) == Enc(q) { ConcatIsInjective(p, q, ".enc"); }
    if Meta(p) == Meta(q) { ConcatIsInjective(p, q, ".meta.json"); }
    LastChar(p, ".enc");
    LastChar(q, ".enc");
    LastChar(q, ".meta.json");
    LastChar(p + ".enc", ".tmp");
    LastChar(p + ".meta.json", ".tmp");
  }

  lemma OwnTrashIsGeneration(profile: string, ts: nat)
    ensures IsGeneration(profile, TrashName(profile, ts))
  {}

  /**
   * Rotating one profile deletes the trash of another exactly when the other's name goes on with a dot
   * after the first, or the first is the other's name and a timestamp.
   */
  lemma {:induction false} SweepsForeignTrashIff(q: string, p: string, ts: nat)
    requires p != q
    ensures IsGeneration(q, TrashName(p, ts)) <==> q + "." <= p || q == p + "." + Decimal(ts)
  {
    var n, d := TrashName(p, ts), Decimal(ts);
    assert n[|n| - 4..] == ".enc";
    assert n == p + ("." + d + ".enc");
    var k := |q|;
    DigitsHaveNoDot(ts);
    var m := |p| + 1 + |d|;
    assert n[..|p|] == p && n[..m] == p + "." + d;
    assert forall i :: |p| < i < m ==> n[i] == d[i - |p| - 1];
    assert forall i :: m < i < |n| ==> n[i] == ".enc"[i - m];
    if q + "." <= n {
      assert n[k] == '.' && n[..k] == q;
      assert k < |p| || k == m;
      if k < |p| {
        assert (q + ".")[..k + 1] == n[..k + 1] == p[..k + 1];
      }
    }
    if q + "." <= p {
      assert n[..k + 1] == p[..k + 1] == q + ".";
    }
    if q == p + "." + d {
      assert n[..k + 1] == q + ".";
    }
  }

  lemma DigitsHaveNoDot(ts: nat)
    ensures forall i :: 0 <= i < |Decimal(ts)| ==> Decimal(ts)[i] != '.'
  {}

  // ----- atomic write ---------------------------------------------------------------------------

  function Appends(p: Path, bytes: Bytes): seq<Op> {
    seq(|bytes|, i requires 0 <= i < |bytes| => Append(p, [bytes[i]]))
  }

  /** Create the temporary file, fill it byte by byte, move it into place. */
  function AtomicWriteOps(p: Path, bytes: Bytes): seq<Op> {
    [Create(Tmp(p))] + Appends(Tmp(p), bytes) + [Rename(Tmp(p), p)]
  }

  lemma {:induction false} PartialWrite(fs: Files, p: Path, bytes: Bytes, k: nat)
    requires 0 < k <= |bytes| + 1
    ensures Run(fs, AtomicWriteOps(p, bytes)[..k]) == fs[Tmp(p) := bytes[..k - 1]]
  {
    var ops := AtomicWriteOps(p, bytes);
    assert ops[..k][..k - 1] == ops[..k - 1];
    if k == 1 {
      assert ops[..0] == [];
      assert bytes[..0] == [];
    } else {
      PartialWrite(fs, p, bytes, k - 1);
      assert ops[k - 1] == Append(Tmp(p), [bytes[k - 2]]);
      assert bytes[..k - 2] + [bytes[k - 2]] == bytes[..k - 1];
    }
  }

  /** Before its last step an atomic write has changed the temporary file only; after it, the target. */
  lemma AtomicWriteIsAtomic(fs: Files, p: Path, bytes: Bytes, k: nat)
    requires k <= |AtomicWriteOps(p, bytes)|
    ensures var fs' := Run(fs, AtomicWriteOps(p, bytes)[..k]);
            if k < |AtomicWriteOps(p, bytes)| then
              forall q :: q != Tmp(p) ==> Untouched(fs, fs', q)
            else
              fs' == (fs - {Tmp(p)})[p := bytes]
  {
    var ops := AtomicWriteOps(p, bytes);
    if k == 0 {
      assert ops[..0] == [];
    } else if k <= |bytes| + 1 {
      PartialWrite(fs, p, bytes, k);
    } else {
      PartialWrite(fs, p, bytes, |bytes| + 1);
      assert ops[..k][..k - 1] == ops[..|bytes| + 1];
      assert bytes[..|bytes|] == bytes;
      assert fs[Tmp(p) := bytes] - {Tmp(p)} == fs - {Tmp(p)};
    }
  }

  // ----- rotation ---------------------------------------------------------------------------------

  function RemovalOps(profile: string, listing: seq<string>): (ops: seq<Op>)
    ensures forall op :: op in ops <==> exists n :: n in listing && IsGeneration(profile, n) && op == Remove(Trash(n))
  {
    if listing == [] then []
    else
      RemovalOps(profile, listing[..|listing| - 1]) +
      if IsGeneration(profile, listing[|listing| - 1]) then [Remove(Trash(listing[|listing| - 1]))] else []
  }

  /** Before the old blob is moved: the older generations go, and whatever is in the way of the move. */
  function ClearOps(fs: Files, profile: string, listing: seq<string>, ts: nat): seq<Op> {
    var removals := RemovalOps(profile, listing);
    var target := Trash(TrashName(profile, ts));
    removals + if target in Run(fs, removals) then [Remove(target)] else []
  }

  /** `listing` is what reading the trash directory gave, in any order. */
  function RotateOps(fs: Files, profile: string, listing: seq<string>, ts: nat): seq<Op> {
    if Enc(profile) !in fs then []
    else ClearOps(fs, profile, listing, ts) + [Rename(Enc(profile), Trash(TrashName(profile, ts)))]
  }

  /** The paths a rotation has no business with. */
  predicate Outside(profile: string, p: Path) {
    p != Enc(profile) && (p.Trash? ==> !IsGeneration(profile, p.name))
  }

  lemma ClearTouchesGenerationsOnly(fs: Files, profile: string, listing: seq<string>, ts: nat, k: nat, p: Path)
    requires k <= |ClearOps(fs, profile, listing, ts)|
    requires p.Live? || Outside(profile, p)
    ensures Untouched(fs, Run(fs, ClearOps(fs, profile, listing, ts)[..k]), p)
  {
    var ops := ClearOps(fs, profile, listing, ts);
    OwnTrashIsGeneration(profile, ts);
    forall op | op in ops[..k] ensures !Touches(op, p) {
      assert op in ops;
    }
    RunLeavesAlone(fs, ops[..k], p);
  }

  lemma RotateTouchesItsOwn(fs: Files, profile: string, listing: seq<string>, ts: nat, op: Op, p: Path)
    requires op in RotateOps(fs, profile, listing, ts) && Outside(profile, p)
    ensures !Touches(op, p)
  {}

  /** Until its last step a rotation leaves the live blob where it is. */
  lemma RotationUnfinished(fs: Files, profile: string, listing: seq<string>, ts: nat, k: nat)
    requires k < |RotateOps(fs, profile, listing, ts)|
    ensures Enc(profile) in fs && Untouched(fs, Run(fs, RotateOps(fs, profile, listing, ts)[..k]), Enc(profile))
  {
    var clear := ClearOps(fs, profile, listing, ts);
    RunPrefix(fs, clear, [Rename(Enc(profile), Trash(TrashName(profile, ts)))], k);
    ClearTouchesGenerationsOnly(fs, profile, listing, ts, k, Enc(profile));
  }

  /** After it, the blob is in the trash, whole, and the live slot is empty. */
  lemma RotationFinished(fs: Files, profile: string, listing: seq<string>, ts: nat)
    requires Enc(profile) in fs
    ensures var fs' := Run(fs, RotateOps(fs, profile, listing, ts));
            && Enc(profile) !in fs'
            && Trash(TrashName(profile, ts)) in fs'
            && fs'[Trash(TrashName(profile, ts))] == fs[Enc(profile)]
  {
    var clear := ClearOps(fs, profile, listing, ts);
    ClearTouchesGenerationsOnly(fs, profile, listing, ts, |clear|, Enc(profile));
    assert clear[..|clear|] == clear;
    var ops := RotateOps(fs, profile, listing, ts);
    assert ops[..|ops| - 1] == clear;
  }

  class AuthDir {
    var files: Files
    /** Every step taken so far; each prefix of it is a state a crash can leave. */
    ghost var log: seq<Op>
    ghost const start: Files

    ghost predicate Valid()
      reads this
    {
      files == Run(start, log)
    }

    constructor (files: Files)
      ensures Valid() && this.files == files && log == []
    {
      this.files := files;
      start := files;
      log := [];
    }

    method Perform(op: Op)
      requires Valid()
      modifies this
      ensures Valid() && log == old(log) + [op] && files == Apply(old(files), op)
    {
      files := Apply(files, op);
      log := log + [op];
      assert log[..|log| - 1] == old(log);
    }

    method AtomicWrite(p: Path, bytes: Bytes)
      requires Valid()
      modifies this
      ensures Valid() && log == old(log) + AtomicWriteOps(p, bytes)
      ensures files == (old(files) - {Tmp(p)})[p := bytes]
    {
      ghost var ops := AtomicWriteOps(p, bytes);
      Perform(Create(Tmp(p)));
      for i := 0 to |bytes|
        invariant Valid() && log == old(log) + ops[..i + 1]
      {
        Perform(Append(Tmp(p), [bytes[i]]));
        assert ops[i + 1] == Append(Tmp(p), [bytes[i]]) && ops[..i + 1] + [ops[i + 1]] == ops[..i + 2];
      }
      Perform(Rename(Tmp(p), p));
      assert ops[..|bytes| + 1] + [Rename(Tmp(p), p)] == ops == ops[..|ops|];
      RunConcat(start, old(log), ops);
      AtomicWriteIsAtomic(old(files), p, bytes, |ops|);
    }

    method RemoveExistingTrashGeneration(profile: string, listing: seq<string>)
      requires Valid()
      modifies this
      ensures Valid() && log == old(log) + RemovalOps(profile, listing)
      ensures files == Run(old(files), RemovalOps(profile, listing))
    {
      for i := 0 to |listing|
        invariant Valid() && log == old(log) + RemovalOps(profile, listing[..i])
      {
        assert listing[..i + 1][..i] == listing[..i];
        if profile + "." <= listing[i] && EndsWith(listing[i], ".enc") {
          Perform(Remove(Trash(listing[i])));
        }
      }
      assert listing[..|listing|] == listing;
      RunConcat(start, old(log), RemovalOps(profile, listing));
    }

    method RotateExistingToTrash(profile: string, listing: seq<string>, ts: nat)
      requires Valid()
      modifies this
      ensures Valid() && log == old(log) + RotateOps(old(files), profile, listing, ts)
      ensures files == Run(old(files), RotateOps(old(files), profile, listing, ts))
    {
      RunConcat(start, old(log), RotateOps(old(files), profile, listing, ts));
      if Enc(profile) !in files { return; }
      RemoveExistingTrashGeneration(profile, listing);
      var target := Trash(TrashName(profile, ts));
      if target in files {
        Perform(Remove(target));
      }
      assert log == old(log) + ClearOps(old(files), profile, listing, ts);
      Perform(Rename(Enc(profile), target));
    }
  }
}
