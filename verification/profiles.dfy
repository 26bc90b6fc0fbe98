/**
 * Profile management (src/core/profile.rs): `list`, `create`, `switch` and
 * `delete` over the loaded configuration. Each command loads the
 * configuration, changes it, and saves it only when it succeeds; here each
 * is the function from the loaded configuration to the one it saves, or to
 * the error it returns instead (in which case nothing is saved).
 */
module Profiles {
  import opened Wrappers
  import opened Errors
  import Text
  import opened Configuration

  const ActiveSuffix: string := " (active)"

  const CannotDeleteActive: Error := Error.Config("Cannot delete active profile. Switch to another profile first.")

  function ProfileExists(name: string): Error {
    Error.Config("Profile '" + name + "' already exists")
  }

  function ProfileNotFound(name: string): Error {
    Error.Config("Profile '" + name + "' not found")
  }

  /** No two profiles share a name. */
  predicate UniqueNames(profiles: seq<Profile>) {
    forall a, b :: 0 <= a < b < |profiles| ==> profiles[a].name != profiles[b].name
  }

  // ---------------------------------------------------------------------
  // list
  // ---------------------------------------------------------------------

  /** How `list` shows one profile: its name, marked when it is the active one. */
  function Entry(p: Profile, active: string): (e: string)
    ensures Text.StartsWith(e, p.name)
    ensures e == p.name <==> p.name != active
    ensures e != p.name ==> e[|p.name|..] == ActiveSuffix
  {
    if p.name == active then p.name + ActiveSuffix else p.name
  }

  /** `list`: one entry per profile, in the stored order. */
  function List(c: Config): (names: seq<string>)
    ensures |names| == |c.profiles|
    ensures forall k :: 0 <= k < |names| ==> names[k] == Entry(c.profiles[k], c.activeProfile)
  {
    seq(|c.profiles|, k requires 0 <= k < |c.profiles| => Entry(c.profiles[k], c.activeProfile))
  }

  /** With unique names, the listing marks exactly one entry, the active
      profile's, when the active profile exists, and none otherwise. */
  lemma ListMarksActive(c: Config)
    requires UniqueNames(c.profiles)
    ensures GetActiveProfile(c).Ok? ==>
              var i := FindProfile(c.profiles, c.activeProfile);
              && List(c)[i] == c.activeProfile + ActiveSuffix
              && forall k :: 0 <= k < |c.profiles| && k != i ==> List(c)[k] == c.profiles[k].name
    ensures GetActiveProfile(c).Err? ==> forall k :: 0 <= k < |c.profiles| ==> List(c)[k] == c.profiles[k].name
  {
  }

  // ---------------------------------------------------------------------
  // create
  // ---------------------------------------------------------------------

  /** `create`: adds a default profile under a new name at the end. */
  function Create(c: Config, name: string): (r: Result<Config>)
    ensures r.Err? <==> HasProfile(c.profiles, name)
    ensures r.Err? ==> r.error == ProfileExists(name)
    ensures r.Ok? ==> && r.value.version == c.version && r.value.activeProfile == c.activeProfile
                      && |r.value.profiles| == |c.profiles| + 1
                      && r.value.profiles[..|c.profiles|] == c.profiles
                      && r.value.profiles[|c.profiles|] == DefaultProfile().(name := name)
  {
    if HasProfile(c.profiles, name) then Err(ProfileExists(name))
    else Ok(c.(profiles := c.profiles + [DefaultProfile().(name := name)]))
  }

  /** Creating keeps the names unique, makes the new name resolve to its
      fresh default profile, and leaves a resolving active profile alone. */
  lemma CreateKeepsProfilesApart(c: Config, name: string)
    requires UniqueNames(c.profiles)
    requires Create(c, name).Ok?
    ensures UniqueNames(Create(c, name).value.profiles)
    ensures var ps := Create(c, name).value.profiles;
      FindProfile(ps, name) == |c.profiles| && ps[|c.profiles|] == DefaultProfile().(name := name)
    ensures GetActiveProfile(c).Ok? ==> GetActiveProfile(Create(c, name).value) == GetActiveProfile(c)
  {
    var ps := Create(c, name).value.profiles;
    FindAppend(c.profiles, DefaultProfile().(name := name), name);
    FindAppend(c.profiles, DefaultProfile().(name := name), c.activeProfile);
  }

  /** Appending a profile does not move the first match of a name that was
      already present, and is the first match of a name that was not. */
  lemma {:induction false} FindAppend(ps: seq<Profile>, p: Profile, name: string)
    ensures HasProfile(ps, name) ==> FindProfile(ps + [p], name) == FindProfile(ps, name)
    ensures !HasProfile(ps, name) && p.name == name ==> FindProfile(ps + [p], name) == |ps|
  {
    var i := FindProfile(ps, name);
    var j := FindProfile(ps + [p], name);
    assert forall k :: 0 <= k < |ps| ==> (ps + [p])[k] == ps[k];
    if HasProfile(ps, name) {
      assert (ps + [p])[i].name == name;
      assert j <= i;
    } else if p.name == name {
      assert (ps + [p])[|ps|].name == name;
    }
  }

  // ---------------------------------------------------------------------
  // switch
  // ---------------------------------------------------------------------

  /** `switch`: makes an existing profile the active one. */
  function Switch(c: Config, name: string): (r: Result<Config>)
    ensures r.Err? <==> !HasProfile(c.profiles, name)
    ensures r.Err? ==> r.error == ProfileNotFound(name)
    ensures r.Ok? ==> r.value.profiles == c.profiles && r.value.version == c.version
    ensures r.Ok? ==> GetActiveProfile(r.value).Ok? && GetActiveProfile(r.value).value.name == name
  {
    if !HasProfile(c.profiles, name) then Err(ProfileNotFound(name))
    else Ok(c.(activeProfile := name))
  }

  /** After switching, the active profile is the first one with that name,
      which is the one `switch` found. */
  lemma SwitchSelects(c: Config, name: string)
    requires Switch(c, name).Ok?
    ensures GetActiveProfile(Switch(c, name).value) == Ok(c.profiles[FindProfile(c.profiles, name)])
  {
  }

  // ---------------------------------------------------------------------
  // delete
  // ---------------------------------------------------------------------

  /** `Vec::retain(|p| p.name != name)`: the profiles not called `name`, in
      their order. */
  function Retain(ps: seq<Profile>, name: string): (r: seq<Profile>)
    ensures |r| <= |ps|
    ensures forall k :: 0 <= k < |r| ==> r[k].name != name && r[k] in ps
    ensures forall k :: 0 <= k < |ps| && ps[k].name != name ==> ps[k] in r
    ensures |r| == |ps| <==> !HasProfile(ps, name)
  {
    if ps == [] then []
    else
      var rest := Retain(ps[1..], name);
      assert forall k :: 1 <= k < |ps| ==> ps[k] == ps[1..][k - 1];
      if ps[0].name == name then rest else [ps[0]] + rest
  }

  /** `delete`: removes every profile called `name`, but never the active
      one, and fails when there was nothing to remove. */
  function Delete(c: Config, name: string): (r: Result<Config>)
    ensures r.Err? <==> name == c.activeProfile || !HasProfile(c.profiles, name)
    ensures r.Err? ==> r.error == (if name == c.activeProfile then CannotDeleteActive else ProfileNotFound(name))
    ensures r.Ok? ==> && r.value.version == c.version && r.value.activeProfile == c.activeProfile
                      && !HasProfile(r.value.profiles, name)
                      && |r.value.profiles| < |c.profiles|
                      && (forall k :: 0 <= k < |c.profiles| && c.profiles[k].name != name ==> c.profiles[k] in r.value.profiles)
                      && (forall k :: 0 <= k < |r.value.profiles| ==> r.value.profiles[k] in c.profiles)
    ensures r.Ok? ==> r.value.profiles == Retain(c.profiles, name)
  {
    if c.activeProfile == name then Err(CannotDeleteActive)
    else
      var kept := Retain(c.profiles, name);
      if |kept| == |c.profiles| then Err(ProfileNotFound(name))
      else Ok(c.(profiles := kept))
  }

  /** Retaining is the in-order filter: a single profile is kept exactly
      when it has another name, and retaining from two pieces of a sequence
      is retaining from each and putting the results side by side, so the
      survivors keep their order and each appears once per occurrence. */
  lemma RetainOne(p: Profile, name: string)
    ensures Retain([p], name) == if p.name == name then [] else [p]
  {
    assert [p][1..] == [];
  }

  lemma {:induction false} RetainAppend(a: seq<Profile>, b: seq<Profile>, name: string)
    ensures Retain(a + b, name) == Retain(a, name) + Retain(b, name)
  {
    if a == [] {
      assert a + b == b;
    } else {
      assert (a + b)[0] == a[0];
      assert (a + b)[1..] == a[1..] + b;
      RetainAppend(a[1..], b, name);
    }
  }

  /** Retaining by another name keeps the first profile of a name. */
  lemma {:induction false} RetainKeepsFirst(ps: seq<Profile>, name: string, other: string)
    requires name != other
    ensures var r := Retain(ps, name);
      var i := FindProfile(ps, other);
      var j := FindProfile(r, other);
      (i < |ps| <==> j < |r|) && (i < |ps| ==> r[j] == ps[i])
  {
    if ps != [] {
      RetainKeepsFirst(ps[1..], name, other);
      var rest := Retain(ps[1..], name);
      FindTail(ps, other);
      if ps[0].name != name {
        FindTail([ps[0]] + rest, other);
        assert ([ps[0]] + rest)[1..] == rest;
      }
    }
  }

  /** The first match in a non-empty sequence is its head or the first
      match in its tail, one position further on. */
  lemma FindTail(ps: seq<Profile>, name: string)
    requires ps != []
    ensures ps[0].name == name ==> FindProfile(ps, name) == 0
    ensures ps[0].name != name ==> FindProfile(ps, name) == FindProfile(ps[1..], name) + 1
  {
    var i := FindProfile(ps, name);
    var j := FindProfile(ps[1..], name);
    assert forall k :: 1 <= k < |ps| ==> ps[k] == ps[1..][k - 1];
    if ps[0].name != name {
      assert i >= 1;
      assert forall k :: 0 <= k < i - 1 ==> ps[1..][k].name != name;
      if j < |ps| - 1 {
        assert ps[j + 1].name == name;
      }
    }
  }

  /** Deleting never changes which profile is active. */
  lemma DeleteKeepsActive(c: Config, name: string)
    requires Delete(c, name).Ok?
    ensures GetActiveProfile(Delete(c, name).value) == GetActiveProfile(c)
  {
    RetainKeepsFirst(c.profiles, name, c.activeProfile);
  }

  /** Deleting keeps the remaining names unique. */
  lemma {:induction false} RetainUnique(ps: seq<Profile>, name: string)
    requires UniqueNames(ps)
    ensures UniqueNames(Retain(ps, name))
  {
    if ps != [] {
      var tail := ps[1..];
      assert UniqueNames(tail) by {
        forall a, b | 0 <= a < b < |tail| ensures tail[a].name != tail[b].name {
          assert tail[a] == ps[a + 1] && tail[b] == ps[b + 1];
        }
      }
      RetainUnique(tail, name);
      var rest := Retain(tail, name);
      if ps[0].name != name {
        forall k | 0 <= k < |rest| ensures rest[k].name != ps[0].name {
          var m :| 0 <= m < |tail| && tail[m] == rest[k];
          assert tail[m] == ps[m + 1];
        }
        var r := [ps[0]] + rest;
        forall a, b | 0 <= a < b < |r| ensures r[a].name != r[b].name {
          assert r[b] == rest[b - 1];
          if a > 0 {
            assert r[a] == rest[a - 1];
          }
        }
      }
    }
  }

  /** No command that succeeds gives two profiles the same name. */
  lemma ProfileNamesStayUnique(c: Config, name: string)
    requires UniqueNames(c.profiles)
    ensures Create(c, name).Ok? ==> UniqueNames(Create(c, name).value.profiles)
    ensures Delete(c, name).Ok? ==> UniqueNames(Delete(c, name).value.profiles)
    ensures Switch(c, name).Ok? ==> UniqueNames(Switch(c, name).value.profiles)
  {
    if Create(c, name).Ok? {
      CreateKeepsProfilesApart(c, name);
    }
    RetainUnique(c.profiles, name);
  }
}
