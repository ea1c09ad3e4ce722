/** Grouping records into RRsets: `group_rrsets` of src/dnssec/mod.rs. */
module RRsets {
  import opened Bytes
  import opened Messages
  import opened Chain

  datatype Group = Group(name: bytes, rtype: u16, rrset: seq<Record>)

  predicate Belongs(r: Record, name: bytes, rtype: u16) { !IsSig(r) && r.name == name && r.rtype == rtype }

  /** Records of one owner and type, in order. */
  function Members(records: seq<Record>, name: bytes, rtype: u16): seq<Record> {
    if records == [] then []
    else
      var n := |records| - 1;
      Members(records[..n], name, rtype) + if Belongs(records[n], name, rtype) then [records[n]] else []
  }

  /** Index of the group for this owner and type, or the number of groups. */
  function Find(groups: seq<Group>, name: bytes, rtype: u16): (i: nat)
    ensures i <= |groups|
    ensures i < |groups| ==> groups[i].name == name && groups[i].rtype == rtype
    ensures forall j :: 0 <= j < i ==> groups[j].name != name || groups[j].rtype != rtype
  {
    if groups == [] then 0
    else if groups[0].name == name && groups[0].rtype == rtype then 0
    else 1 + Find(groups[1..], name, rtype)
  }

  /** The groups partition the records seen: right members in order, keys distinct, none empty, none missing. */
  ghost predicate Partitions(groups: seq<Group>, records: seq<Record>) {
    && (forall i :: 0 <= i < |groups| ==>
          groups[i].rrset == Members(records, groups[i].name, groups[i].rtype) && groups[i].rrset != [])
    && (forall i, j :: 0 <= i < j < |groups| ==> groups[i].name != groups[j].name || groups[i].rtype != groups[j].rtype)
    && (forall r :: r in records && !IsSig(r) ==> Find(groups, r.name, r.rtype) < |groups|)
  }

  function AddTo(groups: seq<Group>, r: Record): seq<Group> {
    if IsSig(r) then groups
    else
      var i := Find(groups, r.name, r.rtype);
      if i < |groups| then groups[i := groups[i].(rrset := groups[i].rrset + [r])]
      else groups + [Group(r.name, r.rtype, [r])]
  }

  function GroupUp(records: seq<Record>): seq<Group> {
    if records == [] then [] else AddTo(GroupUp(records[..|records| - 1]), records[|records| - 1])
  }

  lemma MembersSnoc(rs: seq<Record>, r: Record, name: bytes, rtype: u16)
    ensures Members(rs + [r], name, rtype) == Members(rs, name, rtype) + if Belongs(r, name, rtype) then [r] else []
  {
    assert (rs + [r])[..|rs|] == rs;
  }

  lemma {:induction false} MembersBelong(rs: seq<Record>, name: bytes, rtype: u16)
    ensures forall r :: r in Members(rs, name, rtype) <==> r in rs && Belongs(r, name, rtype)
  {
    hide Belongs;
    if rs != [] {
      MembersBelong(rs[..|rs| - 1], name, rtype);
      assert rs == rs[..|rs| - 1] + [rs[|rs| - 1]];
    }
  }

  lemma {:induction false} FindGrows(groups: seq<Group>, groups': seq<Group>, name: bytes, rtype: u16)
    requires |groups| <= |groups'| && Find(groups, name, rtype) < |groups|
    requires forall i :: 0 <= i < |groups| ==> groups'[i].name == groups[i].name && groups'[i].rtype == groups[i].rtype
    ensures Find(groups', name, rtype) < |groups'|
  {
    var i := Find(groups, name, rtype);
    assert groups'[i].name == name && groups'[i].rtype == rtype;
  }

  lemma AddPartitions(groups: seq<Group>, records: seq<Record>, r: Record)
    requires Partitions(groups, records)
    ensures Partitions(AddTo(groups, r), records + [r])
  {
    hide Members, IsSig;
    var groups' := AddTo(groups, r);
    var at := Find(groups, r.name, r.rtype);
    forall i | 0 <= i < |groups'|
      ensures groups'[i].rrset == Members(records + [r], groups'[i].name, groups'[i].rtype) && groups'[i].rrset != []
    {
      MembersSnoc(records, r, groups'[i].name, groups'[i].rtype);
      if i == |groups| { NoMembers(groups, records, r.name, r.rtype); }
      else if !IsSig(r) && i != at { assert groups[i].name != r.name || groups[i].rtype != r.rtype; }
    }
    forall s | s in records + [r] && !IsSig(s) ensures Find(groups', s.name, s.rtype) < |groups'| {
      if s in records {
        FindGrows(groups, groups', s.name, s.rtype);
      } else {
        assert groups'[at].name == r.name && groups'[at].rtype == r.rtype;
      }
    }
  }

  lemma NoMembers(groups: seq<Group>, records: seq<Record>, name: bytes, rtype: u16)
    requires Partitions(groups, records) && Find(groups, name, rtype) == |groups|
    ensures Members(records, name, rtype) == []
  {
    var m := Members(records, name, rtype);
    MembersBelong(records, name, rtype);
    assert forall r :: r in m ==> Find(groups, r.name, r.rtype) < |groups|;
    if r :| r in m { assert false; }
  }

  lemma NoRecords()
    ensures GroupUp([]) == [] && Partitions([], [])
  {
  }

  lemma GroupUpStep(records: seq<Record>)
    requires records != []
    ensures var n := |records| - 1;
            GroupUp(records) == AddTo(GroupUp(records[..n]), records[n])
  {
    hide AddTo, Find;
  }

  /** Grouping is exactly the partition into RRsets, signatures left aside. */
  lemma {:induction false} GroupUpPartitions(records: seq<Record>)
    ensures Partitions(GroupUp(records), records)
  {
    hide *;
    if records == [] {
      NoRecords();
    } else {
      var n := |records| - 1;
      GroupUpStep(records);
      GroupUpPartitions(records[..n]);
      AddPartitions(GroupUp(records[..n]), records[..n], records[n]);
      assert records[..n] + [records[n]] == records;
    }
  }

  method GroupRrsets(records: seq<Record>) returns (groups: seq<Group>)
    ensures groups == GroupUp(records) && Partitions(groups, records)
  {
    hide Partitions, IsSig;
    groups := [];
    for k := 0 to |records|
      invariant groups == GroupUp(records[..k])
    {
      assert records[..k + 1][..k] == records[..k];
      var r := records[k];
      if IsSig(r) { continue; }
      var i := 0;
      while i < |groups| && (groups[i].name != r.name || groups[i].rtype != r.rtype)
        invariant 0 <= i <= Find(groups, r.name, r.rtype)
      {
        i := i + 1;
      }
      if i < |groups| {
        groups := groups[i := groups[i].(rrset := groups[i].rrset + [r])];
      } else {
        groups := groups + [Group(r.name, r.rtype, [r])];
      }
    }
    assert records[..|records|] == records;
    GroupUpPartitions(records);
  }
}
