/** The change lists of the audit log, and what replaying them means. */
module AuditDiffs {

  /** A recipient's compared attributes, with the parsed lists of authentication methods. */
  datatype Recipient =
    Recipient(accessAuth: seq<string>, actionAuth: seq<string>, email: string, role: string, name: string)

  /** A field's compared attributes. */
  datatype Field = Field(page: int, positionX: real, positionY: real, width: real, height: real)

  datatype Kind = AccessAuth | ActionAuth | Email | Role | Name | Position | Dimension

  /** What a diff records of an attribute. */
  datatype Attribute =
    | Methods(methods: seq<string>)
    | Text(text: string)
    | Place(page: int, x: real, y: real)
    | Extent(width: real, height: real)

  datatype Diff = Diff(kind: Kind, from: Attribute, to: Attribute)

  /** A version of a recipient or of a field, attribute by attribute. */
  type Version = map<Kind, Attribute>

  function RecipientAttribute(r: Recipient, kind: Kind): Attribute {
    match kind
    case AccessAuth => Methods(r.accessAuth)
    case ActionAuth => Methods(r.actionAuth)
    case Email => Text(r.email)
    case Role => Text(r.role)
    case _ => Text(r.name)
  }

  const RECIPIENT_KINDS: set<Kind> := {AccessAuth, ActionAuth, Email, Role, Name}

  function RecipientVersion(r: Recipient): Version {
    map kind | kind in RECIPIENT_KINDS :: RecipientAttribute(r, kind)
  }

  function FieldVersion(f: Field): Version {
    map[Position := Place(f.page, f.positionX, f.positionY), Dimension := Extent(f.width, f.height)]
  }

  /** Two versions are the same exactly when all compared attributes are. */
  lemma VersionsDetermineAttributes(r: Recipient, s: Recipient, f: Field, g: Field)
    ensures RecipientVersion(r) == RecipientVersion(s) <==> r == s
    ensures FieldVersion(f) == FieldVersion(g) <==> f == g
  {
    if RecipientVersion(r) == RecipientVersion(s) {
      assert forall kind :: kind in RECIPIENT_KINDS ==> RecipientVersion(r)[kind] == RecipientVersion(s)[kind];
      assert RecipientVersion(r)[AccessAuth] == RecipientVersion(s)[AccessAuth];
      assert RecipientVersion(r)[ActionAuth] == RecipientVersion(s)[ActionAuth];
      assert RecipientVersion(r)[Email] == RecipientVersion(s)[Email];
      assert RecipientVersion(r)[Role] == RecipientVersion(s)[Role];
      assert RecipientVersion(r)[Name] == RecipientVersion(s)[Name];
    }
    if FieldVersion(f) == FieldVersion(g) {
      assert FieldVersion(f)[Position] == FieldVersion(g)[Position];
      assert FieldVersion(f)[Dimension] == FieldVersion(g)[Dimension];
    }
  }

  ghost predicate HasKind(diffs: seq<Diff>, kind: Kind) {
    exists i :: 0 <= i < |diffs| && diffs[i].kind == kind
  }

  ghost predicate AtMostOnePerKind(diffs: seq<Diff>) {
    forall i, j :: 0 <= i < j < |diffs| ==> diffs[i].kind != diffs[j].kind
  }

  ghost predicate ListsChange(was: Version, now: Version, d: Diff) {
    d.kind in was && d.kind in now && d.from == was[d.kind] && d.to == now[d.kind] && d.from != d.to
  }

  /** As far as the attributes `kinds` go, the list has one entry for each that changed, and no other entry. */
  ghost predicate ListsChangesOf(was: Version, now: Version, diffs: seq<Diff>, kinds: set<Kind>) {
    && AtMostOnePerKind(diffs)
    && (forall i :: 0 <= i < |diffs| ==> diffs[i].kind in kinds && ListsChange(was, now, diffs[i]))
    && (forall kind :: kind in kinds && kind in was && kind in now && was[kind] != now[kind] ==> HasKind(diffs, kind))
  }

  /** The list has one entry for each attribute that changed, with its old and its new value, and no other entry. */
  ghost predicate ListsChanges(was: Version, now: Version, diffs: seq<Diff>) {
    was.Keys == now.Keys && ListsChangesOf(was, now, diffs, was.Keys)
  }

  lemma ListsStep(was: Version, now: Version, diffs: seq<Diff>, kinds: set<Kind>, kind: Kind)
    requires ListsChangesOf(was, now, diffs, kinds) && kind !in kinds && kind in was && kind in now
    ensures ListsChangesOf(
              was, now,
              if was[kind] != now[kind] then diffs + [Diff(kind, was[kind], now[kind])] else diffs, kinds + {kind})
  {
    if was[kind] != now[kind] {
      HasKindStep(diffs, Diff(kind, was[kind], now[kind]));
    }
  }

  lemma HasKindStep(diffs: seq<Diff>, d: Diff)
    ensures forall kind :: HasKind(diffs + [d], kind) <==> HasKind(diffs, kind) || kind == d.kind
  {
    assert (diffs + [d])[|diffs|] == d;
    assert forall i :: 0 <= i < |diffs| ==> (diffs + [d])[i] == diffs[i];
  }

  /** One comparison: the two values of an attribute are recorded if they differ. */
  method PushIfChanged(was: Recipient, now: Recipient, kind: Kind, before: seq<Diff>, ghost kinds: set<Kind>)
    returns (diffs: seq<Diff>)
    requires kind in RECIPIENT_KINDS && kind !in kinds
    requires ListsChangesOf(RecipientVersion(was), RecipientVersion(now), before, kinds)
    ensures ListsChangesOf(RecipientVersion(was), RecipientVersion(now), diffs, kinds + {kind})
  {
    ListsStep(RecipientVersion(was), RecipientVersion(now), before, kinds, kind);
    var from, to := RecipientAttribute(was, kind), RecipientAttribute(now, kind);
    diffs := before;
    if from != to {
      diffs := diffs + [Diff(kind, from, to)];
    }
  }

  method DiffRecipientChanges(was: Recipient, now: Recipient) returns (diffs: seq<Diff>)
    ensures ListsChanges(RecipientVersion(was), RecipientVersion(now), diffs)
  {
    diffs := PushIfChanged(was, now, AccessAuth, [], {});
    diffs := PushIfChanged(was, now, ActionAuth, diffs, {} + {AccessAuth});
    diffs := PushIfChanged(was, now, Email, diffs, {} + {AccessAuth} + {ActionAuth});
    diffs := PushIfChanged(was, now, Role, diffs, {} + {AccessAuth} + {ActionAuth} + {Email});
    diffs := PushIfChanged(was, now, Name, diffs, {} + {AccessAuth} + {ActionAuth} + {Email} + {Role});
    assert RecipientVersion(was).Keys == {} + {AccessAuth} + {ActionAuth} + {Email} + {Role} + {Name};
  }

  /** A position counts as changed when the page or either coordinate has. */
  method DiffFieldChanges(was: Field, now: Field) returns (diffs: seq<Diff>)
    ensures ListsChanges(FieldVersion(was), FieldVersion(now), diffs)
  {
    ghost var v, w := FieldVersion(was), FieldVersion(now);
    diffs := [];
    ListsStep(v, w, diffs, {}, Position);
    if was.page != now.page || was.positionX != now.positionX || was.positionY != now.positionY {
      var from, to := Place(was.page, was.positionX, was.positionY), Place(now.page, now.positionX, now.positionY);
      diffs := diffs + [Diff(Position, from, to)];
    }
    ListsStep(v, w, diffs, {} + {Position}, Dimension);
    if was.width != now.width || was.height != now.height {
      var from, to := Extent(was.width, was.height), Extent(now.width, now.height);
      diffs := diffs + [Diff(Dimension, from, to)];
    }
    assert v.Keys == {} + {Position} + {Dimension};
  }

  // ----- the lists in plain terms -----

  /** The entry is in the list exactly when the two values differ. */
  predicate ListsIf(diffs: seq<Diff>, kind: Kind, from: Attribute, to: Attribute) {
    Diff(kind, from, to) in diffs <==> from != to
  }

  /** Only entries of these kinds with these values. */
  predicate HasNoOther(diffs: seq<Diff>, allowed: seq<Diff>) {
    forall i :: 0 <= i < |diffs| ==> diffs[i] in allowed
  }

  lemma ListsIfChanged(was: Version, now: Version, diffs: seq<Diff>, kind: Kind)
    requires ListsChanges(was, now, diffs) && kind in was
    ensures ListsIf(diffs, kind, was[kind], now[kind])
    ensures forall i :: 0 <= i < |diffs| && diffs[i].kind == kind ==> diffs[i] == Diff(kind, was[kind], now[kind])
  {
    if was[kind] != now[kind] {
      var i :| 0 <= i < |diffs| && diffs[i].kind == kind;
      assert diffs[i] == Diff(kind, was[kind], now[kind]);
    }
  }

  /** What a list of a recipient's changes holds: each pair of values that differ, and nothing else. */
  lemma RecipientChangesListed(was: Recipient, now: Recipient, diffs: seq<Diff>)
    requires ListsChanges(RecipientVersion(was), RecipientVersion(now), diffs)
    ensures ListsIf(diffs, AccessAuth, Methods(was.accessAuth), Methods(now.accessAuth))
    ensures ListsIf(diffs, ActionAuth, Methods(was.actionAuth), Methods(now.actionAuth))
    ensures ListsIf(diffs, Email, Text(was.email), Text(now.email))
    ensures ListsIf(diffs, Role, Text(was.role), Text(now.role))
    ensures ListsIf(diffs, Name, Text(was.name), Text(now.name))
    ensures HasNoOther(diffs, [Diff(AccessAuth, Methods(was.accessAuth), Methods(now.accessAuth)),
                               Diff(ActionAuth, Methods(was.actionAuth), Methods(now.actionAuth)),
                               Diff(Email, Text(was.email), Text(now.email)),
                               Diff(Role, Text(was.role), Text(now.role)),
                               Diff(Name, Text(was.name), Text(now.name))])
  {
    ListsIfChanged(RecipientVersion(was), RecipientVersion(now), diffs, AccessAuth);
    ListsIfChanged(RecipientVersion(was), RecipientVersion(now), diffs, ActionAuth);
    ListsIfChanged(RecipientVersion(was), RecipientVersion(now), diffs, Email);
    ListsIfChanged(RecipientVersion(was), RecipientVersion(now), diffs, Role);
    ListsIfChanged(RecipientVersion(was), RecipientVersion(now), diffs, Name);
  }

  /** What a list of a field's changes holds. */
  lemma FieldChangesListed(was: Field, now: Field, diffs: seq<Diff>)
    requires ListsChanges(FieldVersion(was), FieldVersion(now), diffs)
    ensures ListsIf(diffs, Position, Place(was.page, was.positionX, was.positionY),
                    Place(now.page, now.positionX, now.positionY))
    ensures ListsIf(diffs, Dimension, Extent(was.width, was.height), Extent(now.width, now.height))
    ensures HasNoOther(diffs, [Diff(Position, Place(was.page, was.positionX, was.positionY),
                                    Place(now.page, now.positionX, now.positionY)),
                               Diff(Dimension, Extent(was.width, was.height), Extent(now.width, now.height))])
  {
    ListsIfChanged(FieldVersion(was), FieldVersion(now), diffs, Position);
    ListsIfChanged(FieldVersion(was), FieldVersion(now), diffs, Dimension);
  }

  // ----- replaying -----

  function Replay(v: Version, diffs: seq<Diff>): Version {
    if diffs == [] then v
    else
      var last := diffs[|diffs| - 1];
      Replay(v, diffs[..|diffs| - 1])[last.kind := last.to]
  }

  /** In a list with one entry per kind, an attribute ends with the value its entry sets, or unchanged. */
  lemma {:induction false} LastWriter(v: Version, diffs: seq<Diff>)
    requires AtMostOnePerKind(diffs) && forall i :: 0 <= i < |diffs| ==> diffs[i].kind in v
    ensures Replay(v, diffs).Keys == v.Keys
    ensures forall i :: 0 <= i < |diffs| ==> Replay(v, diffs)[diffs[i].kind] == diffs[i].to
    ensures forall kind :: kind in v && !HasKind(diffs, kind) ==> Replay(v, diffs)[kind] == v[kind]
  {
    if diffs != [] {
      var n := |diffs| - 1;
      LastWriter(v, diffs[..n]);
      assert diffs == diffs[..n] + [diffs[n]];
      HasKindStep(diffs[..n], diffs[n]);
      forall i | 0 <= i < |diffs|
        ensures Replay(v, diffs)[diffs[i].kind] == diffs[i].to
      {
        assert i < n ==> diffs[..n][i] == diffs[i];
      }
    }
  }

  /** One list leads from its old version to its new one, and is empty exactly when nothing changed. */
  lemma ReplayReachesNext(was: Version, now: Version, diffs: seq<Diff>)
    requires ListsChanges(was, now, diffs)
    ensures Replay(was, diffs) == now
    ensures diffs == [] <==> was == now
  {
    LastWriter(was, diffs);
    var after := Replay(was, diffs);
    forall kind | kind in now
      ensures after[kind] == now[kind]
    {
      if i :| 0 <= i < |diffs| && diffs[i].kind == kind {
        assert after[diffs[i].kind] == diffs[i].to;
      } else {
        assert !HasKind(diffs, kind);
      }
    }
    assert after == now;
    if diffs != [] {
      assert was[diffs[0].kind] != now[diffs[0].kind];
    }
  }

  /** `log[i]` leads from version `i` to version `i + 1`. */
  ghost predicate IsHistory(versions: seq<Version>, log: seq<seq<Diff>>) {
    |versions| == |log| + 1 && forall i :: 0 <= i < |log| ==> ListsChanges(versions[i], versions[i + 1], log[i])
  }

  function Flatten(lists: seq<seq<Diff>>): seq<Diff> {
    if lists == [] then [] else Flatten(lists[..|lists| - 1]) + lists[|lists| - 1]
  }

  lemma {:induction false} ReplayConcat(v: Version, a: seq<Diff>, b: seq<Diff>)
    ensures Replay(v, a + b) == Replay(Replay(v, a), b)
    decreases |b|
  {
    if b == [] {
      assert a + b == a;
    } else {
      ReplayConcat(v, a, b[..|b| - 1]);
      assert (a + b)[..|a + b| - 1] == a + b[..|b| - 1];
    }
  }

  /** Replaying the whole log from the first version ends at the last; it is empty exactly when all are equal. */
  lemma {:induction false} ReplayReachesLast(versions: seq<Version>, log: seq<seq<Diff>>)
    requires IsHistory(versions, log)
    ensures Replay(versions[0], Flatten(log)) == versions[|log|]
    ensures Flatten(log) == [] <==> forall i :: 0 <= i < |versions| ==> versions[i] == versions[0]
    decreases |log|
  {
    if log != [] {
      var n := |log| - 1;
      ReplayReachesLast(versions[..n + 1], log[..n]);
      ReplayConcat(versions[0], Flatten(log[..n]), log[n]);
      ReplayReachesNext(versions[n], versions[n + 1], log[n]);
      assert forall i :: 0 <= i <= n ==> versions[..n + 1][i] == versions[i];
    }
  }
}
