/** The project handlers: list, create, get, updateById and remove, each
    behind a membership (or Admin) check on the workspace named. */
module Projects {
  import opened Types
  import opened Database

  /** `list`: a member of the workspace sees every project of it. */
  method List(db: Db, caller: Option<UserId>, workspaceId: WorkspaceId) returns (r: Outcome<map<ProjectId, Project>>)
    ensures r.Err? <==> caller.None? || !db.IsMember(caller.value, workspaceId)
    ensures r.Err? ==> r.error == Unauthorized
    ensures r.Ok? ==> forall p :: p in r.value <==> p in db.projects && db.projects[p].workspaceId == workspaceId
    ensures r.Ok? ==> forall p | p in r.value :: r.value[p] == db.projects[p]
  {
    if caller.None? || !db.IsMember(caller.value, workspaceId) {
      return Err(Unauthorized);
    }
    var projects := map p | p in db.projects && db.projects[p].workspaceId == workspaceId :: db.projects[p];
    return Ok(projects);
  }

  /** `create`: any member of the workspace adds a project to it; names are not
      checked for uniqueness. */
  method Create(db: Db, caller: Option<UserId>, workspaceId: WorkspaceId, name: string, thumbnail: Option<StorageId>)
    returns (r: Outcome<ProjectId>)
    requires db.Valid()
    modifies db`projects, db`nextId
    ensures db.Valid()
    ensures r.Err? <==> caller.None? || !db.IsMember(caller.value, workspaceId)
    ensures r.Err? ==> r.error == Unauthorized && db.projects == old(db.projects)
    ensures r.Ok? ==> r.value !in old(db.projects)
                      && db.projects == old(db.projects)[r.value := Project(name, thumbnail, workspaceId)]
  {
    if caller.None? || !db.IsMember(caller.value, workspaceId) {
      return Err(Unauthorized);
    }
    var id := db.nextId;
    db.projects := db.projects[id := Project(name, thumbnail, workspaceId)];
    db.nextId := db.nextId + 1;
    return Ok(id);
  }

  /** `get`: a member of the workspace reads one of its projects; a project of
      another workspace is refused as Unauthorized. */
  method Get(db: Db, caller: Option<UserId>, projectId: ProjectId, workspaceId: WorkspaceId) returns (r: Outcome<Project>)
    ensures caller.None? || !db.IsMember(caller.value, workspaceId) ==> r == Err(Unauthorized)
    ensures caller.Some? && db.IsMember(caller.value, workspaceId) ==>
              r == if projectId !in db.projects then Err(ProjectNotFound)
                   else if db.projects[projectId].workspaceId != workspaceId then Err(Unauthorized)
                   else Ok(db.projects[projectId])
    ensures r.Ok? ==> r.value.workspaceId == workspaceId
  {
    if caller.None? || !db.IsMember(caller.value, workspaceId) {
      return Err(Unauthorized);
    }
    if projectId !in db.projects {
      return Err(ProjectNotFound);
    }
    var project := db.projects[projectId];
    if project.workspaceId != workspaceId {
      return Err(Unauthorized);
    }
    return Ok(project);
  }

  /** `updateById`: any member of the workspace named sets the name and
      thumbnail passed. The project is not checked to belong to that
      workspace. */
  method UpdateById(db: Db, caller: Option<UserId>, workspaceId: WorkspaceId, projectId: ProjectId,
                    name: Option<string>, thumbnail: Option<StorageId>)
    returns (r: Outcome<()>)
    requires db.Valid()
    modifies db`projects
    ensures db.Valid()
    ensures caller.None? || !db.IsMember(caller.value, workspaceId) ==> r == Err(Unauthorized)
    ensures caller.Some? && db.IsMember(caller.value, workspaceId) && projectId !in old(db.projects) ==>
              r == Err(NonexistentDocument)
    ensures r.Ok? <==> caller.Some? && db.IsMember(caller.value, workspaceId) && projectId in old(db.projects)
    ensures r.Err? ==> db.projects == old(db.projects)
    ensures r.Ok? ==>
              && projectId in old(db.projects)
              && var p := old(db.projects)[projectId];
                 db.projects == old(db.projects)[projectId := p.(name := if name.Some? then name.value else p.name,
                                                                  thumbnail := if thumbnail.Some? then thumbnail else p.thumbnail)]
  {
    if caller.None? || !db.IsMember(caller.value, workspaceId) {
      return Err(Unauthorized);
    }
    if projectId !in db.projects {
      return Err(NonexistentDocument);
    }
    var p := db.projects[projectId];
    db.projects := db.projects[projectId := p.(name := if name.Some? then name.value else p.name,
                                               thumbnail := if thumbnail.Some? then thumbnail else p.thumbnail)];
    return Ok(());
  }

  /** `remove`: only an Admin of the workspace named may delete a project; a
      project that does not exist is a silent success. The project is not
      checked to belong to that workspace. */
  method Remove(db: Db, caller: Option<UserId>, workspaceId: WorkspaceId, projectId: ProjectId) returns (r: Outcome<()>)
    requires db.Valid()
    modifies db`projects
    ensures db.Valid()
    ensures r.Err? <==> caller.None? || !db.IsAdmin(caller.value, workspaceId)
    ensures r.Err? ==> r.error == Unauthorized && db.projects == old(db.projects)
    ensures r.Ok? ==> db.projects == old(db.projects) - {projectId}
  {
    if caller.None? {
      return Err(Unauthorized);
    }
    var currentMembership := db.FindMembership(caller.value, workspaceId);
    if currentMembership.None? {
      return Err(Unauthorized);
    }
    if db.members[currentMembership.value].role != Admin {
      return Err(Unauthorized);
    }
    if projectId !in db.projects {
      return Ok(());
    }
    db.projects := db.projects - {projectId};
    return Ok(());
  }
}
