/** Creating, deleting and renaming vaults in the flat catalog array
    (c_src/vault/vault_catalog.c:414-668, names as in c_src/vault/vault_crypto.c:246-262). */
module CatalogManager {
  import opened Decimals
  import opened Sequences

  const MAX_VAULTS: nat := 2048
  const VAULT_NAME_MAX: nat := 128
  const U32: nat := 0x1_0000_0000

  datatype Vault = Vault(id: nat, name: string, guarded: bool)

  datatype Err = ERR_OK | ERR_INVALID_ARGS | ERR_IO | ERR_CRYPTO | ERR_AUTH | ERR_VAULT_EXISTS | ERR_VAULT_NOT_FOUND |
                 ERR_CATALOG_FULL | ERR_PATH_INVALID | ERR_PASS_REQUIRED

  /** How the rest of the world answers vault_create: is the path fine, is there a password,
      do the two directories get made, is the password accepted. */
  datatype World = World(path: bool, password: bool, directory: bool, cipherDirectory: bool, accepted: bool)

  // ---- Names ----------------------------------------------------------------------------

  predicate NameChar(c: char) {
    'a' <= c <= 'z' || 'A' <= c <= 'Z' || '0' <= c <= '9' || c == '_' || c == '-'
  }

  predicate ValidName(n: string) {
    n != "" && |n| < VAULT_NAME_MAX && forall i :: 0 <= i < |n| ==> NameChar(n[i])
  }

  predicate IsSpelt(c: char) {
    || c in {'a', 'b', 'c', 'd', 'e', 'f', 'g', 'h', 'i', 'j', 'k', 'l', 'm',
      'n', 'o', 'p', 'q', 'r', 's', 't', 'u', 'v', 'w', 'x', 'y', 'z'}
    || c in {'A', 'B', 'C', 'D', 'E', 'F', 'G', 'H', 'I', 'J', 'K', 'L', 'M',
      'N', 'O', 'P', 'Q', 'R', 'S', 'T', 'U', 'V', 'W', 'X', 'Y', 'Z'}
    || c in {'0', '1', '2', '3', '4', '5', '6', '7', '8', '9', '_', '-'}
  }

  /** A name is 1 to 127 of these 64 characters. */
  lemma NamesAreSpelt(n: string)
    ensures ValidName(n) <==> 1 <= |n| <= 127 && forall i :: 0 <= i < |n| ==> IsSpelt(n[i])
  {
    forall c: char
      ensures NameChar(c) <==> IsSpelt(c)
    {
    }
  }

  lemma {:induction false} DecimalIsShort(n: nat)
    ensures n < 10000 ==> |Decimal(n)| <= 4
  {
    if n >= 10 {
      assert n < 10000 ==> n / 10 < 1000;
      assert Decimal(n / 10) == if n / 10 < 10 then [Digit(n / 10)] else Decimal(n / 10 / 10) + [Digit(n / 10 % 10)];
      var m := n / 10 / 10;
      assert n < 10000 ==> m < 100;
      assert Decimal(m) == if m < 10 then [Digit(m)] else Decimal(m / 10) + [Digit(m % 10)];
      assert m < 100 ==> |Decimal(m / 10)| == 1;
    }
  }

  const PREFIX: string := "Nuk4sd_"

  function Candidate(n: nat): string { PREFIX + Decimal(n) }

  lemma CandidatesDiffer(a: nat, b: nat)
    requires Candidate(a) == Candidate(b)
    ensures a == b
  {
    assert Candidate(a)[|PREFIX|..] == Decimal(a);
    assert Candidate(b)[|PREFIX|..] == Decimal(b);
    ValueOfDecimal(a);
    ValueOfDecimal(b);
  }

  lemma CandidateIsValid(n: nat)
    requires n < 10000
    ensures ValidName(Candidate(n))
  {
    DecimalIsShort(n);
  }

  // ---- The catalog as a value -----------------------------------------------------------

  datatype Catalog = Catalog(vaults: seq<Vault>, nextId: nat)

  const EMPTY := Catalog([], 1)

  function Names(vs: seq<Vault>): set<string> { set i | 0 <= i < |vs| :: vs[i].name }

  ghost predicate NamesDistinct(vs: seq<Vault>) {
    forall i, j :: 0 <= i < j < |vs| ==> vs[i].name != vs[j].name
  }

  lemma {:induction false} FewNames(vs: seq<Vault>)
    ensures |Names(vs)| <= |vs|
  {
    if vs != [] {
      var k := |vs| - 1;
      FewNames(vs[..k]);
      assert Names(vs) == Names(vs[..k]) + {vs[k].name};
    }
  }

  function Candidates(n: nat): set<string> { set i | 1 <= i < n :: Candidate(i) }

  lemma {:induction false} ManyCandidates(n: nat)
    requires n >= 1
    ensures |Candidates(n)| == n - 1
  {
    if n > 1 {
      ManyCandidates(n - 1);
      if Candidate(n - 1) in Candidates(n - 1) {
        var i :| 1 <= i < n - 1 && Candidate(i) == Candidate(n - 1);
        CandidatesDiffer(i, n - 1);
      }
      assert Candidates(n) == Candidates(n - 1) + {Candidate(n - 1)};
    }
  }

  lemma {:induction false} SubsetIsSmaller(a: set<string>, b: set<string>)
    requires a <= b
    ensures |a| <= |b|
  {
    if a != {} {
      var x :| x in a;
      SubsetIsSmaller(a - {x}, b - {x});
    }
  }

  /** The names tried so far are all taken, so there are no more of them than vaults. */
  lemma Pigeonhole(vs: seq<Vault>, n: nat)
    requires n >= 1 && Candidates(n) <= Names(vs)
    ensures n <= |vs| + 1
  {
    ManyCandidates(n);
    FewNames(vs);
    SubsetIsSmaller(Candidates(n), Names(vs));
  }

  ghost predicate NameIsFree(vs: seq<Vault>, name: string) {
    forall j :: 0 <= j < |vs| ==> vs[j].name != name
  }

  lemma FreeIsNotTaken(vs: seq<Vault>, name: string)
    ensures name in Names(vs) <==> !NameIsFree(vs, name)
  {
  }

  /** The first free automatic name. */
  ghost predicate IsAutoName(vs: seq<Vault>, name: string, n: nat) {
    && 1 <= n <= |vs| + 1 && name == "Nuk4sd_" + Decimal(n) && NameIsFree(vs, name)
    && Candidates(n) <= Names(vs)
  }

  lemma AutoNameIsUnique(vs: seq<Vault>, a: string, m: nat, b: string, n: nat)
    requires IsAutoName(vs, a, m) && IsAutoName(vs, b, n)
    ensures a == b && m == n
  {
    FreeIsNotTaken(vs, a);
    FreeIsNotTaken(vs, b);
    assert a == Candidate(m) && b == Candidate(n);
    assert m < n ==> a in Candidates(n);
    assert n < m ==> b in Candidates(m);
  }

  /** What vault_create does once it has a name to try. */
  function Create(c: Catalog, name: string, guarded: bool, w: World): (Catalog, Err) {
    if |c.vaults| >= MAX_VAULTS then (c, ERR_CATALOG_FULL)
    else if !ValidName(name) then (c, ERR_INVALID_ARGS)
    else if name in Names(c.vaults) then (c, ERR_VAULT_EXISTS)
    else if !w.path then (c, ERR_PATH_INVALID)
    else if guarded && !w.password then (c, ERR_PASS_REQUIRED)
    else if !w.directory then (c, ERR_IO)
    else
      var bumped := c.(nextId := (c.nextId + 1) % U32);
      if !w.cipherDirectory then (bumped, ERR_IO)
      else if guarded && !w.accepted then (bumped, ERR_CRYPTO)
      else (bumped.(vaults := c.vaults + [Vault(c.nextId, name, guarded)]), ERR_OK)
  }

  /** vault_find_by_id: the first vault with the id. */
  function FirstWithId(vs: seq<Vault>, id: nat): (i: nat)
    ensures i <= |vs| && (i < |vs| ==> vs[i].id == id) && forall j :: 0 <= j < i ==> vs[j].id != id
  {
    if vs == [] || vs[0].id == id then 0 else 1 + FirstWithId(vs[1..], id)
  }

  function Delete(c: Catalog, id: nat, authorised: bool): (Catalog, Err) {
    var i := FirstWithId(c.vaults, id);
    if i == |c.vaults| then (c, ERR_VAULT_NOT_FOUND)
    else if c.vaults[i].guarded && !authorised then (c, ERR_AUTH)
    else (c.(vaults := c.vaults[..i] + c.vaults[i + 1..]), ERR_OK)
  }

  function Rename(c: Catalog, id: nat, name: string, authorised: bool): (Catalog, Err) {
    var i := FirstWithId(c.vaults, id);
    if i == |c.vaults| then (c, ERR_VAULT_NOT_FOUND)
    else if !ValidName(name) then (c, ERR_INVALID_ARGS)
    else if name in Names(c.vaults) then (c, ERR_VAULT_EXISTS)
    else if c.vaults[i].guarded && !authorised then (c, ERR_AUTH)
    else (c.(vaults := c.vaults[i := c.vaults[i].(name := name)]), ERR_OK)
  }

  // ---- What each call does, said place by place -----------------------------------------

  /** `i` is the first place that holds the id. */
  ghost predicate FirstAt(vs: seq<Vault>, i: int, id: nat) {
    0 <= i < |vs| && vs[i].id == id && forall j :: 0 <= j < i ==> vs[j].id != id
  }

  /** Place `i` is gone and what was behind it stands one place further down. */
  ghost predicate IsWithout(was: seq<Vault>, now: seq<Vault>, i: int) {
    && 0 <= i < |was| == |now| + 1
    && (forall j :: 0 <= j < i ==> now[j] == was[j])
    && (forall j :: i <= j < |now| ==> now[j] == was[j + 1])
  }

  ghost predicate DeleteEffect(was: seq<Vault>, now: seq<Vault>, err: Err, id: nat, authorised: bool) {
    && (err == ERR_VAULT_NOT_FOUND <==> forall j :: 0 <= j < |was| ==> was[j].id != id)
    && (err == ERR_OK <==> exists i: nat :: FirstAt(was, i, id) && (!was[i].guarded || authorised))
    && (err == ERR_AUTH <==> exists i: nat :: FirstAt(was, i, id) && was[i].guarded && !authorised)
    && (err == ERR_OK ==> forall i :: FirstAt(was, i, id) ==> IsWithout(was, now, i))
    && (err != ERR_OK ==> now == was)
  }

  /** Only the name at place `i` is another. */
  ghost predicate IsRenamed(was: seq<Vault>, now: seq<Vault>, i: int, name: string) {
    && 0 <= i < |was| == |now|
    && now[i].name == name && now[i].id == was[i].id && now[i].guarded == was[i].guarded
    && forall j :: 0 <= j < |was| && j != i ==> now[j] == was[j]
  }

  ghost predicate RenameEffect(was: seq<Vault>, now: seq<Vault>, err: Err, id: nat, name: string, authorised: bool) {
    && (err == ERR_OK <==>
          exists i: nat :: FirstAt(was, i, id) && ValidName(name) && NameIsFree(was, name) && (!was[i].guarded || authorised))
    && (err == ERR_OK ==> forall i :: FirstAt(was, i, id) ==> IsRenamed(was, now, i, name))
    && (err != ERR_OK ==> now == was)
  }

  /** The new vault stands last, under the next id; a call that gets as far as the first
      directory and fails then has used the id up. */
  ghost predicate CreateEffect(was: Catalog, now: Catalog, err: Err, name: string, guarded: bool, w: World) {
    var mayStart := |was.vaults| < 2048 && ValidName(name) && NameIsFree(was.vaults, name)
                    && w.path && (guarded ==> w.password) && w.directory;
    && (err == ERR_OK <==> mayStart && w.cipherDirectory && (guarded ==> w.accepted))
    && now.nextId == (if !mayStart then was.nextId else if was.nextId == 0xffff_ffff then 0 else was.nextId + 1)
    && (err != ERR_OK ==> now.vaults == was.vaults)
    && (err == ERR_OK ==> now.vaults == was.vaults + [Vault(was.nextId, name, guarded)])
  }

  lemma FirstIsFirst(vs: seq<Vault>, id: nat)
    ensures forall i :: FirstAt(vs, i, id) <==> i == FirstWithId(vs, id) < |vs|
    ensures FirstWithId(vs, id) < |vs| <==> FirstAt(vs, FirstWithId(vs, id), id)
  {
  }

  lemma DeleteDoes(c: Catalog, id: nat, authorised: bool)
    ensures var (d, err) := Delete(c, id, authorised);
            d.nextId == c.nextId && DeleteEffect(c.vaults, d.vaults, err, id, authorised)
  {
    FirstIsFirst(c.vaults, id);
  }

  lemma RenameDoes(c: Catalog, id: nat, name: string, authorised: bool)
    ensures var (d, err) := Rename(c, id, name, authorised);
            d.nextId == c.nextId && RenameEffect(c.vaults, d.vaults, err, id, name, authorised)
  {
    FirstIsFirst(c.vaults, id);
    FreeIsNotTaken(c.vaults, name);
  }

  lemma CreateDoes(c: Catalog, name: string, guarded: bool, w: World)
    requires c.nextId < U32
    ensures var (d, err) := Create(c, name, guarded, w); CreateEffect(c, d, err, name, guarded, w)
  {
    FreeIsNotTaken(c.vaults, name);
  }

  // ---- The array ------------------------------------------------------------------------

  class CatalogArray {
    const vaults: array<Vault>
    var count: nat
    var nextId: nat

    ghost predicate Valid()
      reads this
    {
      count <= MAX_VAULTS == vaults.Length && nextId < U32
    }

    ghost function Value(): Catalog
      requires Valid()
      reads this, vaults
    {
      Catalog(vaults[..count], nextId)
    }

    constructor ()
      ensures Valid() && Value() == EMPTY && fresh(vaults)
    {
      vaults := new Vault[MAX_VAULTS](i => Vault(0, "", false));
      count, nextId := 0, 1;
    }

    method FindById(id: nat) returns (i: nat)
      requires Valid()
      ensures i == FirstWithId(vaults[..count], id)
    {
      i := 0;
      while i < count && vaults[i].id != id
        invariant i <= count && FirstWithId(vaults[..count], id) == i + FirstWithId(vaults[i..count], id)
      {
        assert vaults[i..count][1..] == vaults[i + 1..count];
        i := i + 1;
      }
    }

    method FindByName(name: string) returns (found: bool)
      requires Valid()
      ensures found <==> name in Names(vaults[..count])
    {
      for i := 0 to count
        invariant forall j :: 0 <= j < i ==> vaults[j].name != name
      {
        if vaults[i].name == name {
          assert vaults[..count][i].name == name;
          return true;
        }
      }
      return false;
    }

    /** vault_auto_name: it stops after at most count + 1 tries. */
    method AutoName() returns (name: string)
      requires Valid()
      ensures exists n :: IsAutoName(vaults[..count], name, n)
    {
      var next := 1;
      while true
        invariant 1 <= next <= count + 1
        invariant Candidates(next) <= Names(vaults[..count])
        decreases count + 1 - next
      {
        name := Candidate(next);
        var taken := FindByName(name);
        if !taken {
          assert IsAutoName(vaults[..count], name, next);
          return;
        }
        assert Candidates(next + 1) == Candidates(next) + {name};
        next := next + 1;
        Pigeonhole(vaults[..count], next);
      }
    }

    /** vault_create; an empty name asks for an automatic one. */
    method CreateVault(nameArg: string, guarded: bool, w: World) returns (err: Err, name: string)
      requires Valid()
      modifies this, vaults
      ensures Valid() && (Value(), err) == Create(old(Value()), name, guarded, w)
      ensures CreateEffect(old(Value()), Value(), err, name, guarded, w)
      ensures nameArg != "" ==> name == nameArg
      ensures nameArg == "" && err != ERR_CATALOG_FULL ==> exists n :: IsAutoName(old(Value()).vaults, name, n)
    {
      name := nameArg;
      if count >= MAX_VAULTS {
        return ERR_CATALOG_FULL, name;
      }
      if nameArg == "" {
        name := AutoName();
      }
      CreateDoes(Value(), name, guarded, w);
      if !ValidName(name) {
        return ERR_INVALID_ARGS, name;
      }
      var taken := FindByName(name);
      if taken {
        return ERR_VAULT_EXISTS, name;
      }
      if !w.path {
        return ERR_PATH_INVALID, name;
      }
      if guarded && !w.password {
        return ERR_PASS_REQUIRED, name;
      }
      if !w.directory {
        return ERR_IO, name;
      }
      vaults[count] := Vault(nextId, name, guarded);
      nextId := (nextId + 1) % U32;
      assert vaults[..count] == old(vaults[..count]);
      if !w.cipherDirectory {
        return ERR_IO, name;
      }
      if guarded && !w.accepted {
        return ERR_CRYPTO, name;
      }
      count := count + 1;
      assert vaults[..count] == old(vaults[..count]) + [vaults[count - 1]];
      return ERR_OK, name;
    }

    /** The memmove of vault_delete: everything behind `idx` moves down one place. */
    method MoveDown(idx: nat)
      requires Valid() && idx < count
      modifies vaults
      ensures forall j :: 0 <= j < idx ==> vaults[j] == old(vaults[j])
      ensures forall j :: idx <= j < count - 1 ==> vaults[j] == old(vaults[j + 1])
    {
      var i := idx;
      while i + 1 < count
        invariant idx <= i < count
        invariant forall j :: 0 <= j < idx ==> vaults[j] == old(vaults[j])
        invariant forall j :: idx <= j < i ==> vaults[j] == old(vaults[j + 1])
        invariant forall j :: i < j < count ==> vaults[j] == old(vaults[j])
      {
        vaults[i] := vaults[i + 1];
        i := i + 1;
      }
    }

    /** vault_delete. */
    method DeleteVault(id: nat, authorised: bool) returns (err: Err)
      requires Valid()
      modifies this, vaults
      ensures Valid() && (Value(), err) == Delete(old(Value()), id, authorised)
      ensures DeleteEffect(old(vaults[..count]), vaults[..count], err, id, authorised) && nextId == old(nextId)
    {
      DeleteDoes(Value(), id, authorised);
      var idx := FindById(id);
      if idx == count {
        return ERR_VAULT_NOT_FOUND;
      }
      if vaults[idx].guarded && !authorised {
        return ERR_AUTH;
      }
      ghost var was := vaults[..count];
      MoveDown(idx);
      count := count - 1;
      assert vaults[..count] == was[..idx] + was[idx + 1..];
      return ERR_OK;
    }

    /** vault_rename. */
    method RenameVault(id: nat, name: string, authorised: bool) returns (err: Err)
      requires Valid()
      modifies vaults
      ensures Valid() && (Value(), err) == Rename(old(Value()), id, name, authorised)
      ensures RenameEffect(old(vaults[..count]), vaults[..count], err, id, name, authorised)
    {
      RenameDoes(Value(), id, name, authorised);
      var i := FindById(id);
      if i == count {
        return ERR_VAULT_NOT_FOUND;
      }
      if !ValidName(name) {
        return ERR_INVALID_ARGS;
      }
      var taken := FindByName(name);
      if taken {
        return ERR_VAULT_EXISTS;
      }
      if vaults[i].guarded && !authorised {
        return ERR_AUTH;
      }
      vaults[i] := vaults[i].(name := name);
      assert vaults[..count] == old(vaults[..count])[i := vaults[i]];
      return ERR_OK;
    }
  }

  // ---- Runs -----------------------------------------------------------------------------

  datatype Op =
    | CreateOp(name: string, guarded: bool, w: World)
    | DeleteOp(id: nat, authorised: bool)
    | RenameOp(id: nat, name: string, authorised: bool)

  function Step(c: Catalog, op: Op): Catalog {
    match op
    case CreateOp(name, guarded, w) => Create(c, name, guarded, w).0
    case DeleteOp(id, authorised) => Delete(c, id, authorised).0
    case RenameOp(id, name, authorised) => Rename(c, id, name, authorised).0
  }

  function Run(ops: seq<Op>): Catalog {
    if ops == [] then EMPTY else Step(Run(ops[..|ops| - 1]), ops[|ops| - 1])
  }

  /** The ids handed out, the ones lost to a vault that was not finished included. */
  function Issued(ops: seq<Op>): seq<nat> {
    if ops == [] then []
    else
      var front := ops[..|ops| - 1];
      Issued(front) + if Step(Run(front), ops[|ops| - 1]).nextId != Run(front).nextId then [Run(front).nextId] else []
  }

  ghost predicate WellFormed(c: Catalog) {
    && |c.vaults| <= MAX_VAULTS && NamesDistinct(c.vaults)
    && forall i :: 0 <= i < |c.vaults| ==> ValidName(c.vaults[i].name)
  }

  lemma CreateKeepsWellFormed(c: Catalog, name: string, guarded: bool, w: World)
    requires WellFormed(c)
    ensures WellFormed(Create(c, name, guarded, w).0)
  {
    forall i | 0 <= i < |c.vaults|
      ensures c.vaults[i].name in Names(c.vaults)
    {
    }
  }

  lemma DeleteKeepsWellFormed(c: Catalog, id: nat, authorised: bool)
    requires WellFormed(c)
    ensures WellFormed(Delete(c, id, authorised).0)
  {
  }

  lemma RenameKeepsWellFormed(c: Catalog, id: nat, name: string, authorised: bool)
    requires WellFormed(c)
    ensures WellFormed(Rename(c, id, name, authorised).0)
  {
    forall i | 0 <= i < |c.vaults|
      ensures c.vaults[i].name in Names(c.vaults)
    {
    }
  }

  /** Names stay valid and unique, and there is room for every vault. */
  lemma StepKeepsWellFormed(c: Catalog, op: Op)
    requires WellFormed(c)
    ensures WellFormed(Step(c, op))
  {
    match op
    case CreateOp(name, guarded, w) => CreateKeepsWellFormed(c, name, guarded, w);
    case DeleteOp(id, authorised) => DeleteKeepsWellFormed(c, id, authorised);
    case RenameOp(id, name, authorised) => RenameKeepsWellFormed(c, id, name, authorised);
  }

  lemma {:induction false} RunIsWellFormed(ops: seq<Op>)
    ensures WellFormed(Run(ops))
  {
    if ops != [] {
      RunIsWellFormed(ops[..|ops| - 1]);
      StepKeepsWellFormed(Run(ops[..|ops| - 1]), ops[|ops| - 1]);
    }
  }

  /** The id that is handed out after `k` others. */
  function Nth(k: nat): nat { (1 + k) % U32 }

  lemma NthNext(k: nat)
    ensures (Nth(k) + 1) % U32 == Nth(k + 1) != Nth(k)
  {
    var n := 1 + k;
    var q := n / U32;
    assert n == q * U32 + n % U32;
    if n % U32 == U32 - 1 {
      assert n + 1 == (q + 1) * U32;
    } else {
      assert n + 1 == q * U32 + (n % U32 + 1);
    }
  }

  lemma NextIdStep(c: Catalog, op: Op)
    ensures Step(c, op).nextId == c.nextId || Step(c, op).nextId == (c.nextId + 1) % U32
  {
  }

  lemma IssuedStep(ops: seq<Op>)
    requires ops != []
    ensures var front := ops[..|ops| - 1];
            || (Issued(ops) == Issued(front) && Run(ops).nextId == Run(front).nextId)
            || (Issued(ops) == Issued(front) + [Run(front).nextId] && Run(ops).nextId == (Run(front).nextId + 1) % U32)
  {
    NextIdStep(Run(ops[..|ops| - 1]), ops[|ops| - 1]);
  }

  ghost predicate InTurn(next: nat, issued: seq<nat>) {
    next == Nth(|issued|) && forall k :: 0 <= k < |issued| ==> issued[k] == Nth(k)
  }

  lemma TurnGrows(next: nat, issued: seq<nat>)
    requires InTurn(next, issued)
    ensures InTurn((next + 1) % U32, issued + [next])
  {
    NthNext(|issued|);
  }

  /** Ids are handed out in turn, modulo the width of next_id. */
  lemma {:induction false} IdsInTurn(ops: seq<Op>)
    ensures InTurn(Run(ops).nextId, Issued(ops))
  {
    if ops != [] {
      IdsInTurn(ops[..|ops| - 1]);
      IssuedStep(ops);
      TurnGrows(Run(ops[..|ops| - 1]).nextId, Issued(ops[..|ops| - 1]));
    }
  }

  lemma NthValues(k: nat)
    ensures k < U32 - 1 ==> Nth(k) == 1 + k
    ensures Nth(U32 - 1) == 0 && Nth(U32) == 1
  {
  }

  lemma NthInjective(i: nat, j: nat)
    requires i < j < U32
    ensures Nth(i) != Nth(j)
  {
    NthValues(i);
    NthValues(j);
  }

  /** No id is ever issued twice exactly as long as at most 2^32 were issued. */
  lemma NeverReissued(ops: seq<Op>)
    ensures Distinct(Issued(ops)) <==> |Issued(ops)| <= U32
  {
    IdsInTurn(ops);
    TurnsRepeat(Run(ops).nextId, Issued(ops));
  }

  lemma TurnsRepeat(next: nat, issued: seq<nat>)
    requires InTurn(next, issued)
    ensures Distinct(issued) <==> |issued| <= U32
  {
    if |issued| > U32 {
      NthValues(0);
      assert issued[0] == issued[U32];
    } else {
      forall i, j | 0 <= i < j < |issued|
        ensures issued[i] != issued[j]
      {
        NthInjective(i, j);
      }
    }
  }

  function Ids(vs: seq<Vault>): (ids: seq<nat>)
    ensures |ids| == |vs| && forall i :: 0 <= i < |vs| ==> ids[i] == vs[i].id
  {
    seq(|vs|, i requires 0 <= i < |vs| => vs[i].id)
  }

  ghost predicate Increasing(ids: seq<nat>, bound: nat) {
    && (forall i, j :: 0 <= i < j < |ids| ==> ids[i] < ids[j])
    && (forall i :: 0 <= i < |ids| ==> 1 <= ids[i] <= bound)
  }

  ghost predicate OneRemoved(a: seq<nat>, b: seq<nat>) {
    exists i :: 0 <= i < |a| && b == a[..i] + a[i + 1..]
  }

  /** What a step does to the ids: at most one goes, or the next one is added at the end. */
  lemma IdsOfStep(c: Catalog, op: Op)
    ensures var a, b := Ids(c.vaults), Ids(Step(c, op).vaults);
            || b == a || OneRemoved(a, b)
            || (b == a + [c.nextId] && Step(c, op).nextId == (c.nextId + 1) % U32)
  {
    var a, b := Ids(c.vaults), Ids(Step(c, op).vaults);
    match op
    case CreateOp(_, _, _) =>
      assert b == a || b == a + [c.nextId];
    case DeleteOp(id, _) =>
      var i := FirstWithId(c.vaults, id);
      assert b == a || (i < |a| && b == a[..i] + a[i + 1..]);
    case RenameOp(_, _, _) =>
      assert b == a;
  }

  lemma OrderAfterStep(a: seq<nat>, b: seq<nat>, next: nat, bound: nat, more: nat)
    requires Increasing(a, bound)
    requires ((b == a || OneRemoved(a, b)) && bound <= more) || (b == a + [next] && bound < next <= more)
    ensures Increasing(b, more)
  {
    if OneRemoved(a, b) && b != a {
      var i :| 0 <= i < |a| && b == a[..i] + a[i + 1..];
      assert forall j :: 0 <= j < |b| ==> b[j] == if j < i then a[j] else a[j + 1];
    }
  }

  /** What a step does to the ids in use and to the ids handed out. */
  ghost predicate Links(a: seq<nat>, next: nat, issued: seq<nat>, b: seq<nat>, next2: nat, issued2: seq<nat>) {
    && ((issued2 == issued && next2 == next) || (issued2 == issued + [next] && next2 == (next + 1) % U32))
    && (b == a || OneRemoved(a, b) || (b == a + [next] && next2 == (next + 1) % U32))
  }

  lemma RunLinks(ops: seq<Op>)
    requires ops != []
    ensures var front := ops[..|ops| - 1];
            Links(Ids(Run(front).vaults), Run(front).nextId, Issued(front), Ids(Run(ops).vaults), Run(ops).nextId, Issued(ops))
  {
    IssuedStep(ops);
    IdsOfStep(Run(ops[..|ops| - 1]), ops[|ops| - 1]);
  }

  lemma OrderGrows(a: seq<nat>, next: nat, issued: seq<nat>, b: seq<nat>, next2: nat, issued2: seq<nat>)
    requires Links(a, next, issued, b, next2, issued2) && InTurn(next, issued) && |issued2| < U32
    requires |issued| < U32 ==> Increasing(a, |issued|)
    ensures Increasing(b, |issued2|)
  {
    NthNext(|issued|);
    NthValues(|issued|);
    OrderAfterStep(a, b, next, |issued|, |issued2|);
  }

  /** Until next_id wraps, ids increase along the array, all of them issued ones: a deleted
      vault's id never comes back. */
  lemma {:induction false} IdsStayOrdered(ops: seq<Op>)
    ensures |Issued(ops)| < U32 ==> Increasing(Ids(Run(ops).vaults), |Issued(ops)|)
  {
    if ops != [] && |Issued(ops)| < U32 {
      var front := ops[..|ops| - 1];
      IdsStayOrdered(front);
      IdsInTurn(front);
      RunLinks(ops);
      OrderGrows(Ids(Run(front).vaults), Run(front).nextId, Issued(front), Ids(Run(ops).vaults), Run(ops).nextId, Issued(ops));
    }
  }

  // ---- After the wrap -------------------------------------------------------------------

  const FINE := World(true, true, true, true, true)
  const OLDEST := Vault(1, "a", false)

  lemma Extend(ops: seq<Op>, op: Op)
    ensures Run(ops + [op]) == Step(Run(ops), op)
  {
    assert (ops + [op])[..|ops|] == ops;
  }

  /** One vault stays, others come and go. */
  lemma {:induction false} Churn(n: nat) returns (ops: seq<Op>)
    requires n < U32
    ensures Run(ops) == Catalog([OLDEST], Nth(n + 1))
  {
    if n == 0 {
      ops := [];
      Extend(ops, CreateOp("a", false, FINE));
      ops := ops + [CreateOp("a", false, FINE)];
    } else {
      ops := Churn(n - 1);
      var id := Nth(n);
      NthValues(n);
      NthNext(n);
      var create, delete := CreateOp("b", false, FINE), DeleteOp(id, true);
      Extend(ops, create);
      Extend(ops + [create], delete);
      CreateAndDelete(Catalog([OLDEST], id));
      ops := ops + [create] + [delete];
    }
  }

  lemma NameOfOldest()
    ensures Names([OLDEST]) == {"a"}
  {
    var vs := [OLDEST];
    assert vs[0].name in Names(vs);
    assert forall n :: n in Names(vs) ==> n == vs[0].name;
  }

  lemma CreateOnWrap(c: Catalog)
    requires c.vaults == [OLDEST]
    ensures Step(c, CreateOp("b", false, FINE)).vaults == [OLDEST, Vault(c.nextId, "b", false)]
  {
    NameOfOldest();
  }

  lemma CreateAndDelete(c: Catalog)
    requires c.vaults == [OLDEST] && c.nextId != 1
    ensures Step(c, CreateOp("b", false, FINE)) == Catalog([OLDEST, Vault(c.nextId, "b", false)], (c.nextId + 1) % U32)
    ensures Step(Step(c, CreateOp("b", false, FINE)), DeleteOp(c.nextId, true)) == Catalog([OLDEST], (c.nextId + 1) % U32)
  {
    var d := Step(c, CreateOp("b", false, FINE));
    NameOfOldest();
    assert d.vaults[1..] == [Vault(c.nextId, "b", false)];
    assert FirstWithId(d.vaults, c.nextId) == 1;
    assert d.vaults[..1] + d.vaults[2..] == [OLDEST];
  }

  /** When next_id has wrapped, a new vault can get the id of a live one, and the new one can
      then no longer be found by it. */
  lemma WrapDuplicatesIds() returns (ops: seq<Op>)
    ensures Run(ops).vaults == [OLDEST, Vault(1, "b", false)]
    ensures FirstWithId(Run(ops).vaults, 1) == 0
  {
    ops := Churn(U32 - 1);
    NthValues(0);
    Extend(ops, CreateOp("b", false, FINE));
    CreateOnWrap(Run(ops));
    ops := ops + [CreateOp("b", false, FINE)];
  }
}
