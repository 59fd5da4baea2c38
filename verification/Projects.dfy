/** Projects, their members, and the app tokens that act for a member on a project. */
module Projects {
  import opened Wrappers
  import opened Sequences

  datatype Project = Project(name: string, adminId: nat, userIds: seq<nat>, isActive: bool, isPersonal: bool)

  datatype Token = Token(text: string, project: nat, user: nat, createdAt: int, lifespan: int)

  datatype ProjectUpdate = ProjectUpdate(
    name: Option<string>,
    adminId: Option<nat>,
    userIds: Option<seq<nat>>,
    isActive: Option<bool>)

  datatype Owner = Owner(project: Project, user: nat)

  function WithMember(userIds: seq<nat>, user: nat): seq<nat> {
    if user in userIds then userIds else userIds + [user]
  }

  function Other(user: nat): nat -> bool { (u: nat) => u != user }

  /** The tokens left once those of a project's users other than these are deleted. */
  function WithoutOthers(tokens: map<nat, Token>, project: nat, members: seq<nat>): map<nat, Token> {
    map id | id in tokens && (tokens[id].project != project || tokens[id].user in members) :: tokens[id]
  }

  function IsExpired(t: Token, now: int): bool { t.createdAt + t.lifespan <= now }

  predicate IsNameFree(projects: map<nat, Project>, except: nat, name: string) {
    forall id :: id in projects && id != except ==> projects[id].name != name
  }

  /** The members and the admin an update leaves: the admin is always among the members. */
  function AdminAfter(p: Project, u: ProjectUpdate): nat { if u.adminId.Some? then u.adminId.value else p.adminId }

  function MembersAfter(p: Project, u: ProjectUpdate): seq<nat> {
    WithMember(if u.userIds.Some? then u.userIds.value else p.userIds, AdminAfter(p, u))
  }

  function ProjectAfter(p: Project, u: ProjectUpdate): Project {
    Project(if u.name.Some? then u.name.value else p.name, AdminAfter(p, u), MembersAfter(p, u),
            if u.isActive.Some? then u.isActive.value else p.isActive, p.isPersonal)
  }

  lemma WithMemberStaysDistinct(userIds: seq<nat>, user: nat)
    ensures Distinct(WithMember(userIds, user)) <==> Distinct(userIds)
    ensures user in WithMember(userIds, user)
  {
    var members := WithMember(userIds, user);
    if user !in userIds {
      assert members[|userIds|] == user;
      assert forall i :: 0 <= i < |userIds| ==> members[i] == userIds[i] && userIds[i] in userIds;
    }
  }

  lemma {:induction false} KeptStaysDistinct(userIds: seq<nat>, user: nat)
    requires Distinct(userIds)
    ensures Distinct(Kept(userIds, Other(user)))
    ensures forall u :: u in Kept(userIds, Other(user)) <==> u in userIds && u != user
  {
    if userIds != [] {
      KeptStaysDistinct(userIds[1..], user);
      assert userIds == [userIds[0]] + userIds[1..];
      assert userIds[0] !in userIds[1..];
    }
  }

  predicate HasAdmin(p: Project) { p.adminId in p.userIds }

  predicate IsMembers(projects: map<nat, Project>, t: Token) {
    t.project in projects && t.user in projects[t.project].userIds
  }

  predicate ValidProjects(projects: map<nat, Project>) {
    && (forall id :: id in projects ==> HasAdmin(projects[id]) && Distinct(projects[id].userIds))
    && (forall id :: id in projects ==> IsNameFree(projects, id, projects[id].name))
  }

  predicate ValidTokens(projects: map<nat, Project>, tokens: map<nat, Token>) {
    forall t :: t in tokens ==> IsMembers(projects, tokens[t])
  }

  lemma WithProject(projects: map<nat, Project>, id: nat, p: Project)
    requires ValidProjects(projects) && HasAdmin(p) && Distinct(p.userIds) && IsNameFree(projects, id, p.name)
    ensures ValidProjects(projects[id := p])
  {
  }

  /** Tokens stay valid through a change of a project that keeps those of its members they are of. */
  lemma WithMembers(projects: map<nat, Project>, tokens: map<nat, Token>, id: nat, p: Project)
    requires ValidTokens(projects, tokens)
    requires forall t :: t in tokens && tokens[t].project == id ==> tokens[t].user in p.userIds
    ensures ValidTokens(projects[id := p], tokens)
  {
    forall t | t in tokens ensures IsMembers(projects[id := p], tokens[t]) {
      assert IsMembers(projects, tokens[t]);
    }
  }

  lemma WithoutOthersIsValid(projects: map<nat, Project>, tokens: map<nat, Token>, id: nat, members: seq<nat>)
    requires ValidTokens(projects, tokens)
    ensures var left := WithoutOthers(tokens, id, members);
      ValidTokens(projects, left) && forall t :: t in left && left[t].project == id ==> left[t].user in members
  {
  }

  lemma WithoutProject(projects: map<nat, Project>, tokens: map<nat, Token>, id: nat)
    requires ValidProjects(projects) && ValidTokens(projects, tokens)
    requires forall t :: t in tokens ==> tokens[t].project != id
    ensures ValidProjects(projects - {id}) && ValidTokens(projects - {id}, tokens)
  {
  }

  class AuthService {
    var projects: map<nat, Project>
    var deleted: map<nat, Project>
    var tokens: map<nat, Token>

    /** The admin is always a member; no project has a member twice, and no two have one name;
        and every token's project is there, with the token's user among its members. */
    ghost predicate Valid()
      reads this
    {
      ValidProjects(projects) && ValidTokens(projects, tokens)
    }

    constructor ()
      ensures Valid() && projects == map[] && deleted == map[] && tokens == map[]
    {
      projects, deleted, tokens := map[], map[], map[];
    }

    /** A project of the users and the admin; a name taken, or a user named twice, is refused. */
    method CreateProject(newId: nat, name: string, adminId: nat, userIds: seq<nat>) returns (r: Result<Project>)
      requires Valid() && newId !in projects
      modifies this`projects
      ensures Valid()
      ensures r.Ok? <==> IsNameFree(old(projects), newId, name) && Distinct(userIds)
      ensures r.Ok? ==> r.value == Project(name, adminId, WithMember(userIds, adminId), true, false)
      ensures r.Ok? ==> projects == old(projects)[newId := r.value]
      ensures r.Err? ==> r.error == ProjectExists && projects == old(projects)
    {
      var members := WithMember(userIds, adminId);
      WithMemberStaysDistinct(userIds, adminId);
      if !IsNameFree(projects, newId, name) || !Distinct(members) {
        return Err(ProjectExists);
      }
      WithProject(projects, newId, Project(name, adminId, members, true, false));
      projects := projects[newId := Project(name, adminId, members, true, false)];
      return Ok(projects[newId]);
    }

    /** The user's own project, made if it is not there: its id is computed from the user's. */
    method EnsurePersonalProject(id: nat, user: nat, name: string) returns (r: Option<Project>)
      requires Valid()
      modifies this`projects
      ensures Valid()
      ensures id in old(projects) ==> projects == old(projects) && r == Some(projects[id])
      ensures id !in old(projects) && IsNameFree(old(projects), id, name) ==>
        projects == old(projects)[id := Project(name, user, [user], true, true)] && r == Some(projects[id])
      ensures id !in old(projects) && !IsNameFree(old(projects), id, name) ==> projects == old(projects) && r == None
    {
      if id in projects {
        return Some(projects[id]);
      }
      if !IsNameFree(projects, id, name) {
        return None;
      }
      projects := projects[id := Project(name, user, [user], true, true)];
      return Some(projects[id]);
    }

    method DeleteNonMemberTokens(id: nat, members: seq<nat>)
      requires Valid()
      modifies this`tokens
      ensures Valid() && tokens == WithoutOthers(old(tokens), id, members)
      ensures forall t :: t in tokens && tokens[t].project == id ==> tokens[t].user in members
    {
      WithoutOthersIsValid(projects, tokens, id, members);
      tokens := WithoutOthers(tokens, id, members);
    }

    /** The tokens of those who are not among a project's new members, if they are new, go. */
    method RevokeLeavers(id: nat, userIds: seq<nat>)
      requires Valid() && id in projects
      modifies this`tokens
      ensures Valid() && tokens == WithoutOthers(old(tokens), id, userIds)
      ensures forall t :: t in tokens && tokens[t].project == id ==> tokens[t].user in userIds
    {
      if userIds != projects[id].userIds {
        DeleteNonMemberTokens(id, userIds);
      } else {
        assert forall t :: t in tokens && tokens[t].project == id ==> IsMembers(projects, tokens[t]);
        assert tokens == WithoutOthers(tokens, id, userIds);
      }
    }

    /** Updates a project, and revokes the tokens of those who leave it. One that is refused for
        its name, or for a member named twice, leaves the project, but those tokens are gone. */
    method UpdateProject(id: nat, u: ProjectUpdate) returns (r: Result<Project>)
      requires Valid()
      modifies this`projects, this`tokens
      ensures Valid()
      ensures id !in old(projects) ==> r == Err(NotFound) && projects == old(projects) && tokens == old(tokens)
      ensures id in old(projects) ==> tokens == WithoutOthers(old(tokens), id, MembersAfter(old(projects)[id], u))
      ensures id in old(projects) ==>
        var after := ProjectAfter(old(projects)[id], u);
        if IsNameFree(old(projects), id, after.name) && Distinct(after.userIds)
        then r == Ok(after) && projects == old(projects)[id := after]
        else r == Err(DuplicateKey) && projects == old(projects)
    {
      if id !in projects {
        return Err(NotFound);
      }
      var project := projects[id];
      var adminId := if u.adminId.Some? then u.adminId.value else project.adminId;
      var userIds := if u.userIds.Some? then u.userIds.value else project.userIds;
      if adminId !in userIds {
        userIds := userIds + [adminId];
      }
      RevokeLeavers(id, userIds);
      var updated := ProjectAfter(project, u);
      if !IsNameFree(projects, id, updated.name) || !Distinct(updated.userIds) {
        return Err(DuplicateKey);
      }
      WithProject(projects, id, updated);
      WithMembers(projects, tokens, id, updated);
      projects := projects[id := updated];
      return Ok(updated);
    }

    method AddMember(id: nat, user: nat) returns (r: Option<Project>)
      requires Valid()
      modifies this`projects
      ensures Valid()
      ensures id !in old(projects) ==> r == None && projects == old(projects)
      ensures id in old(projects) ==>
        var after := old(projects)[id].(userIds := WithMember(old(projects)[id].userIds, user));
        r == Some(after) && projects == old(projects)[id := after]
    {
      if id !in projects {
        return None;
      }
      WithMemberStaysDistinct(projects[id].userIds, user);
      projects := projects[id := projects[id].(userIds := WithMember(projects[id].userIds, user))];
      return Some(projects[id]);
    }

    method SetAdmin(id: nat, user: nat) returns (r: Option<Project>)
      requires Valid()
      modifies this`projects
      ensures Valid()
      ensures id !in old(projects) ==> r == None && projects == old(projects)
      ensures id in old(projects) ==>
        var after := old(projects)[id].(adminId := user, userIds := WithMember(old(projects)[id].userIds, user));
        r == Some(after) && projects == old(projects)[id := after]
    {
      if id !in projects {
        return None;
      }
      WithMemberStaysDistinct(projects[id].userIds, user);
      projects := projects[id := projects[id].(adminId := user, userIds := WithMember(projects[id].userIds, user))];
      return Some(projects[id]);
    }

    /** Removes a member and revokes their tokens. It keeps everything valid exactly if they are
        not the admin, whom the route above it never removes. */
    method RemoveMember(id: nat, member: nat)
      requires Valid() && id in projects
      modifies this`projects, this`tokens
      ensures Valid() <==> member != old(projects)[id].adminId
      ensures projects == old(projects)[id := old(projects)[id].(userIds := Kept(old(projects)[id].userIds, Other(member)))]
      ensures forall t :: t in old(tokens) && old(tokens)[t].project == id ==>
        (t in tokens <==> old(tokens)[t].user != member)
      ensures forall t :: t in old(tokens) && old(tokens)[t].project != id ==> t in tokens && tokens[t] == old(tokens)[t]
      ensures forall t :: t in tokens ==> t in old(tokens) && tokens[t] == old(tokens)[t]
    {
      var userIds := Kept(projects[id].userIds, Other(member));
      KeptStaysDistinct(projects[id].userIds, member);
      DeleteNonMemberTokens(id, userIds);
      var updated := projects[id].(userIds := userIds);
      WithMembers(projects, tokens, id, updated);
      if HasAdmin(updated) {
        WithProject(projects, id, updated);
      }
      projects := projects[id := updated];
      assert HasAdmin(projects[id]) <==> member != old(projects)[id].adminId;
    }

    /** Deletes a project and its tokens, and keeps a copy, unless it has one already. */
    method DeleteProject(id: nat, isSuperuser: bool) returns (error: Option<Error>)
      requires Valid() && id in projects
      modifies this
      ensures Valid()
      ensures if old(projects)[id].isPersonal && !isSuperuser
        then error == Some(Forbidden) && projects == old(projects) && tokens == old(tokens) && deleted == old(deleted)
        else
          && projects == old(projects) - {id}
          && tokens == WithoutOthers(old(tokens), id, [])
          && (if id in old(deleted) then error == Some(DuplicateKey) && deleted == old(deleted)
              else error == None && deleted == old(deleted)[id := old(projects)[id]])
    {
      var project := projects[id];
      if project.isPersonal && !isSuperuser {
        return Some(Forbidden);
      }
      WithoutOthersIsValid(projects, tokens, id, []);
      tokens := WithoutOthers(tokens, id, []);
      WithoutProject(projects, tokens, id);
      projects := projects - {id};
      if id in deleted {
        return Some(DuplicateKey);
      }
      deleted := deleted[id := project];
      return None;
    }

    method CreateAppToken(newId: nat, text: string, project: nat, user: nat, lifespan: int, now: int) returns (r: Result<Token>)
      requires Valid() && newId !in tokens && forall t :: t in tokens ==> tokens[t].text != text
      modifies this`tokens
      ensures Valid()
      ensures if project in projects && user in projects[project].userIds && projects[project].isActive
        then r == Ok(Token(text, project, user, now, lifespan)) && tokens == old(tokens)[newId := r.value]
        else r == Err(Forbidden) && tokens == old(tokens)
    {
      if project !in projects || user !in projects[project].userIds || !projects[project].isActive {
        return Err(Forbidden);
      }
      tokens := tokens[newId := Token(text, project, user, now, lifespan)];
      return Ok(tokens[newId]);
    }

    /** The token of an id, which is deleted instead if it has expired. */
    method FindUnexpiredToken(id: nat, now: int) returns (r: Option<Token>)
      requires Valid()
      modifies this`tokens
      ensures Valid()
      ensures r == if id in old(tokens) && !IsExpired(old(tokens)[id], now) then Some(old(tokens)[id]) else None
      ensures tokens == if id in old(tokens) && IsExpired(old(tokens)[id], now) then old(tokens) - {id} else old(tokens)
    {
      if id !in tokens {
        return None;
      }
      if IsExpired(tokens[id], now) {
        tokens := tokens - {id};
        return None;
      }
      return Some(tokens[id]);
    }

    /** Whom an unexpired token acts for. It has an owner exactly if its user is still there: its
        project and its user's membership always are. */
    method GetTokenOwner(id: nat, users: set<nat>, now: int) returns (r: Option<Owner>)
      requires Valid()
      modifies this`tokens
      ensures Valid()
      ensures r.Some? <==> id in old(tokens) && !IsExpired(old(tokens)[id], now) && old(tokens)[id].user in users
      ensures r.Some? ==>
        && old(tokens)[id].project in projects && r.value.project == projects[old(tokens)[id].project]
        && r.value.user == old(tokens)[id].user && r.value.user in r.value.project.userIds
    {
      var token := FindUnexpiredToken(id, now);
      if token.None? {
        return None;
      }
      if token.value.user !in users || token.value.project !in projects
         || token.value.user !in projects[token.value.project].userIds {
        return None;
      }
      return Some(Owner(projects[token.value.project], token.value.user));
    }

    method UpdateAppTokenExpiry(id: nat, user: nat, expiresAt: int, now: int) returns (r: Option<Token>)
      requires Valid()
      modifies this`tokens
      ensures Valid()
      ensures r.Some? <==> id in old(tokens) && old(tokens)[id].user == user && !IsExpired(old(tokens)[id], now)
      ensures r.Some? ==>
        && tokens == old(tokens)[id := r.value] && r.value.createdAt + r.value.lifespan == expiresAt
        && r.value == old(tokens)[id].(lifespan := r.value.lifespan)
      ensures r.None? ==> tokens == old(tokens) || tokens == old(tokens) - {id}
    {
      if id !in tokens || tokens[id].user != user {
        return None;
      }
      var token := FindUnexpiredToken(id, now);
      if token.None? {
        return None;
      }
      tokens := tokens[id := token.value.(lifespan := expiresAt - token.value.createdAt)];
      return Some(tokens[id]);
    }

    method DeleteAppToken(id: nat, user: nat) returns (error: Option<Error>)
      requires Valid()
      modifies this`tokens
      ensures Valid()
      ensures if id in old(tokens) && old(tokens)[id].user == user
        then error == None && tokens == old(tokens) - {id}
        else error == Some(NotFound) && tokens == old(tokens)
    {
      if id !in tokens || tokens[id].user != user {
        return Some(NotFound);
      }
      tokens := tokens - {id};
      return None;
    }
  }

  /** What a user may do is revoked with their membership: of a project's tokens, an update
      leaves exactly those of users who are still its members. */
  lemma LeaversLoseTokens(projects: map<nat, Project>, tokens: map<nat, Token>, id: nat, u: ProjectUpdate)
    requires id in projects && forall t :: t in tokens ==> IsMembers(projects, tokens[t])
    ensures var after := WithoutOthers(tokens, id, MembersAfter(projects[id], u));
      forall t :: t in tokens ==>
        (t in after <==> IsMembers(projects[id := ProjectAfter(projects[id], u)], tokens[t]))
  {
  }
}
