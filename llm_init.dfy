/** Agent setup (llm_init.py): a document library is created on the remote
    service, the first code files are uploaded into it, and an agent is
    created whose document tool points at that library; `get_agent` reuses
    an agent of the configured name when one exists. The remote service is
    the state of a `Client`; which uploads fail is an input. */
module Session {
  import opened Wrappers
  import opened Text
  import CodeBase

  /** At most this many files are uploaded. */
  const MaxUploads: nat := 10

  const AgentModel := "mistral-medium-2505"
  const LibraryDescription := "Library for konvu code analysis"
  const AgentDescription := "Agent to analyze codebases for security vulnerabilities."
  const AgentInstructions :=
    "You are a code analysis expert.\n"
    + "            When asked about the codebase, ALWAYS use the document_library tool to search for relevant files.\n"
    + "            Use the uploaded documents to answer questions accurately."

  datatype Library = Library(id: nat, name: string, description: string)

  /** The two tools every created agent carries. */
  datatype Tool = DocumentLibrary(libraryIds: seq<nat>) | CodeInterpreter

  datatype Agent = Agent(
    id: nat,
    model: string,
    name: string,
    description: string,
    instructions: string,
    tools: seq<Tool>,
    temperature: real,
    toolChoice: string)

  /** Why setting up an agent failed: the file listing raised, or nothing
      could be uploaded. */
  datatype SetupError = ListingFailed(cause: CodeBase.CodeBaseError) | NoFilesUploaded

  // ---------------------------------------------------------------------
  // Upload outcomes

  /** Positions below `n` whose attempt succeeds, ascending. */
  function Succeeded(n: nat, fails: set<nat>): (idx: seq<nat>)
    ensures forall k :: 0 <= k < |idx| ==> idx[k] < n && idx[k] !in fails
    ensures forall k, l :: 0 <= k < l < |idx| ==> idx[k] < idx[l]
    ensures forall i :: 0 <= i < n && i !in fails ==> i in idx
  {
    if n == 0 then [] else Succeeded(n - 1, fails) + (if n - 1 in fails then [] else [n - 1])
  }

  /** The files whose attempt succeeds, in the order tried. */
  function Uploaded(paths: seq<string>, fails: set<nat>): (r: seq<string>)
    ensures |r| <= |paths| && forall x :: x in r ==> x in paths
    ensures (forall i :: 0 <= i < |paths| ==> i !in fails) ==> r == paths
  {
    if paths == [] then []
    else Uploaded(paths[..|paths| - 1], fails) + (if |paths| - 1 in fails then [] else [paths[|paths| - 1]])
  }

  /** The files whose attempt fails, in the order tried. */
  function Failed(paths: seq<string>, fails: set<nat>): (r: seq<string>)
    ensures |r| <= |paths| && forall x :: x in r ==> x in paths
    ensures (forall i :: 0 <= i < |paths| ==> i !in fails) ==> r == []
  {
    if paths == [] then []
    else Failed(paths[..|paths| - 1], fails) + (if |paths| - 1 in fails then [paths[|paths| - 1]] else [])
  }

  /** Positions picked from a prefix pick the same files from the whole. */
  lemma {:induction false} PickedFromPrefix(front: seq<string>, paths: seq<string>, up: seq<string>, idx: seq<nat>)
    requires |front| <= |paths| && front == paths[..|front|] && |up| == |idx|
    requires forall k :: 0 <= k < |up| ==> idx[k] < |front| && up[k] == front[idx[k]]
    ensures forall k :: 0 <= k < |up| ==> up[k] == paths[idx[k]]
  {
    forall k | 0 <= k < |up| ensures up[k] == paths[idx[k]] {
      assert front[idx[k]] == paths[idx[k]];
    }
  }

  /** One more attempt extends both the uploaded files and the succeeding
      positions, or neither. */
  lemma {:induction false} SelectStep(paths: seq<string>, fails: set<nat>)
    requires paths != []
    ensures var n := |paths|;
      if n - 1 in fails
      then Uploaded(paths, fails) == Uploaded(paths[..n - 1], fails) && Succeeded(n, fails) == Succeeded(n - 1, fails)
      else Uploaded(paths, fails) == Uploaded(paths[..n - 1], fails) + [paths[n - 1]]
           && Succeeded(n, fails) == Succeeded(n - 1, fails) + [n - 1]
  {
    var n := |paths|;
    if n - 1 in fails {
      assert Uploaded(paths, fails) == Uploaded(paths[..n - 1], fails) + [];
      assert Succeeded(n, fails) == Succeeded(n - 1, fails) + [];
    }
  }

  /** Appending a file and its position keeps the two lists in step. */
  lemma {:induction false} PickedAppend(up: seq<string>, idx: seq<nat>, paths: seq<string>, i: nat)
    requires |up| == |idx| && i < |paths|
    requires forall k :: 0 <= k < |up| ==> idx[k] < |paths| && up[k] == paths[idx[k]]
    ensures forall k :: 0 <= k < |up| + 1 ==> (up + [paths[i]])[k] == paths[(idx + [i])[k]]
  {
    forall k | 0 <= k < |up| + 1 ensures (up + [paths[i]])[k] == paths[(idx + [i])[k]] {
      if k < |up| {
        assert (up + [paths[i]])[k] == up[k];
        assert (idx + [i])[k] == idx[k];
      }
    }
  }

  /** The uploaded files are exactly the tried files at the succeeding
      positions, in order: an in-order subsequence of what was tried. */
  lemma {:induction false} UploadedSelectsSucceeded(paths: seq<string>, fails: set<nat>)
    ensures |Uploaded(paths, fails)| == |Succeeded(|paths|, fails)|
    ensures forall k :: 0 <= k < |Uploaded(paths, fails)| ==>
              Uploaded(paths, fails)[k] == paths[Succeeded(|paths|, fails)[k]]
    decreases |paths|
  {
    if paths != [] {
      var n := |paths|;
      var front := paths[..n - 1];
      UploadedSelectsSucceeded(front, fails);
      var up := Uploaded(front, fails);
      var idx := Succeeded(n - 1, fails);
      PickedFromPrefix(front, paths, up, idx);
      SelectStep(paths, fails);
      if n - 1 !in fails {
        PickedAppend(up, idx, paths, n - 1);
      }
    }
  }

  /** One more attempt adds its file to exactly one of the two lists. */
  lemma {:induction false} PartitionStep(paths: seq<string>, fails: set<nat>)
    requires paths != []
    ensures multiset(Uploaded(paths, fails)) + multiset(Failed(paths, fails))
            == multiset(Uploaded(paths[..|paths| - 1], fails)) + multiset(Failed(paths[..|paths| - 1], fails))
               + multiset{paths[|paths| - 1]}
  {
    var n := |paths|;
    var front := paths[..n - 1];
    var last := paths[n - 1];
    var up := Uploaded(front, fails);
    var failed := Failed(front, fails);
    if n - 1 in fails {
      assert Uploaded(paths, fails) == up;
      assert Failed(paths, fails) == failed + [last];
      assert multiset(failed + [last]) == multiset(failed) + multiset{last};
    } else {
      assert Failed(paths, fails) == failed;
      assert Uploaded(paths, fails) == up + [last];
      assert multiset(up + [last]) == multiset(up) + multiset{last};
    }
  }

  /** Every tried file is either uploaded or recorded as an error, and the
      two lists together hold exactly the tried files. */
  lemma {:induction false} UploadedAndFailedPartition(paths: seq<string>, fails: set<nat>)
    ensures multiset(Uploaded(paths, fails)) + multiset(Failed(paths, fails)) == multiset(paths)
    ensures |Uploaded(paths, fails)| + |Failed(paths, fails)| == |paths|
  {
    SplitsTried(paths, fails);
    var mu := multiset(Uploaded(paths, fails));
    var mf := multiset(Failed(paths, fails));
    calc {
      |Uploaded(paths, fails)| + |Failed(paths, fails)|;
      |mu| + |mf|;
      |mu + mf|;
      |multiset(paths)|;
      |paths|;
    }
  }

  lemma {:induction false} SplitsTried(paths: seq<string>, fails: set<nat>)
    ensures multiset(Uploaded(paths, fails)) + multiset(Failed(paths, fails)) == multiset(paths)
    decreases |paths|
  {
    if paths != [] {
      var n := |paths|;
      var front := paths[..n - 1];
      var last := paths[n - 1];
      calc {
        multiset(Uploaded(paths, fails)) + multiset(Failed(paths, fails));
        == { PartitionStep(paths, fails); }
        multiset(Uploaded(front, fails)) + multiset(Failed(front, fails)) + multiset{last};
        == { SplitsTried(front, fails); }
        multiset(front) + multiset{last};
        == { assert paths == front + [last]; }
        multiset(paths);
      }
    }
  }

  /** Nothing is uploaded exactly when every attempt fails. */
  lemma {:induction false} NothingUploadedIff(paths: seq<string>, fails: set<nat>)
    ensures Uploaded(paths, fails) == [] <==> forall i :: 0 <= i < |paths| ==> i in fails
    decreases |paths|
  {
    if paths != [] {
      NothingUploadedIff(paths[..|paths| - 1], fails);
    }
  }

  // ---------------------------------------------------------------------
  // Agent lookup

  /** The position of the first agent with the given name. */
  function FindByName(agents: seq<Agent>, name: string): (r: Option<nat>)
    ensures r.Some? ==> r.value < |agents| && agents[r.value].name == name
    ensures r.Some? ==> forall j :: 0 <= j < r.value ==> agents[j].name != name
    ensures r.None? ==> forall j :: 0 <= j < |agents| ==> agents[j].name != name
  {
    if agents == [] then None
    else if agents[0].name == name then Some(0)
    else
      match FindByName(agents[1..], name)
      case None => None
      case Some(i) => Some(i + 1)
  }

  /** An agent with the name, preceded by none, is the one found. */
  lemma {:induction false} FindByNameFirst(agents: seq<Agent>, name: string, i: nat)
    requires i < |agents| && agents[i].name == name
    requires forall j :: 0 <= j < i ==> agents[j].name != name
    ensures FindByName(agents, name) == Some(i)
  {
    var r := FindByName(agents, name);
    assert r.Some?;
    assert r.value >= i;
  }

  /** The files `create_agent` uploads for a listing: none when the listing
      failed. */
  function UploadsFor(listing: Result<seq<string>, CodeBase.CodeBaseError>, fails: set<nat>): seq<string> {
    if listing.Success? then Uploaded(Take(listing.value, MaxUploads), fails) else []
  }

  /** What `create_agent` leaves behind, from the service's state before
      (`libs0`, `docs0`, `agents0`) to its state after (`libs`, `docs`,
      `agents`): one new library named after the agent, holding the uploaded
      files, every older library and its documents untouched; then either
      the error, with no new agent, or the new agent bound to that library. */
  predicate CreatedAgent(name: string, listing: Result<seq<string>, CodeBase.CodeBaseError>, fails: set<nat>,
                         libs0: seq<Library>, docs0: map<nat, seq<string>>, agents0: seq<Agent>,
                         libs: seq<Library>, docs: map<nat, seq<string>>, agents: seq<Agent>,
                         r: Result<Agent, SetupError>)
  {
    && |libs| == |libs0| + 1 && libs[..|libs0|] == libs0
    && var lib := libs[|libs0|];
    && lib == Library(lib.id, name + "_LIB", LibraryDescription)
    && lib.id !in docs0
    && docs == docs0[lib.id := UploadsFor(listing, fails)]
    && (forall k :: k in docs0 ==> k in docs && docs[k] == docs0[k])
    && (listing.Failure? ==> r == Failure(ListingFailed(listing.error)))
    && (listing.Success? && UploadsFor(listing, fails) == [] ==> r == Failure(NoFilesUploaded))
    && (r.Success? <==> UploadsFor(listing, fails) != [])
    && (r.Failure? ==> agents == agents0)
    && (r.Success? ==>
          agents == agents0 + [r.value]
          && r.value == Agent(r.value.id, AgentModel, name, AgentDescription, AgentInstructions,
                              [DocumentLibrary([lib.id]), CodeInterpreter], 0.3, "auto"))
  }

  /** The remote service: its libraries with their documents, and its
      agents in listing order. */
  class Client {
    var libraries: seq<Library>
    var documents: map<nat, seq<string>>
    var agents: seq<Agent>
    var nextId: nat

    /** Every id in use was handed out before `nextId`; every library has a
        document list. */
    predicate Valid()
      reads this
    {
      && (forall l :: l in libraries ==> l.id < nextId && l.id in documents)
      && (forall k :: k in documents ==> k < nextId)
      && (forall a :: a in agents ==> a.id < nextId)
    }

    constructor()
      ensures Valid()
      ensures libraries == [] && documents == map[] && agents == []
    {
      libraries := [];
      documents := map[];
      agents := [];
      nextId := 0;
    }

    /** `client.beta.libraries.create`: a new, empty library. */
    method CreateLibrary(name: string, description: string) returns (lib: Library)
      requires Valid()
      modifies this
      ensures Valid()
      ensures lib == Library(old(nextId), name, description)
      ensures libraries == old(libraries) + [lib]
      ensures documents == old(documents)[lib.id := []]
      ensures agents == old(agents)
      ensures lib.id !in old(documents)
    {
      lib := Library(nextId, name, description);
      libraries := libraries + [lib];
      documents := documents[lib.id := []];
      nextId := nextId + 1;
    }

    /** `send_files_to_api`: tries the first ten paths in order; position `i`
        fails (reading the file or uploading it raises) exactly when `i` is
        in `fails`. A failure is recorded and the loop goes on. */
    method SendFiles(libId: nat, filePaths: seq<string>, fails: set<nat>)
      returns (fileIds: seq<string>, errors: seq<string>)
      requires Valid() && libId in documents
      modifies this
      ensures Valid()
      ensures fileIds == Uploaded(Take(filePaths, MaxUploads), fails)
      ensures errors == Failed(Take(filePaths, MaxUploads), fails)
      ensures documents == old(documents)[libId := old(documents[libId]) + fileIds]
      ensures libraries == old(libraries) && agents == old(agents) && nextId == old(nextId)
    {
      var attempts := Take(filePaths, MaxUploads);
      fileIds := [];
      errors := [];
      assert old(documents[libId]) + fileIds == old(documents[libId]);
      for i := 0 to |attempts|
        invariant Valid() && libId in documents
        invariant fileIds == Uploaded(attempts[..i], fails)
        invariant errors == Failed(attempts[..i], fails)
        invariant documents == old(documents)[libId := old(documents[libId]) + fileIds]
        invariant libraries == old(libraries) && agents == old(agents) && nextId == old(nextId)
      {
        var filePath := attempts[i];
        assert attempts[..i + 1][..i] == attempts[..i];
        if i in fails {
          errors := errors + [filePath];
        } else {
          assert documents[libId] + [filePath] == old(documents[libId]) + (fileIds + [filePath]);
          documents := documents[libId := documents[libId] + [filePath]];
          fileIds := fileIds + [filePath];
        }
      }
      assert attempts[..|attempts|] == attempts;
    }

    /** `client.beta.agents.create` with the fixed model, tools and
        completion arguments. */
    method NewAgent(name: string, libId: nat) returns (agent: Agent)
      requires Valid()
      modifies this
      ensures Valid()
      ensures agent == Agent(old(nextId), AgentModel, name, AgentDescription, AgentInstructions,
                             [DocumentLibrary([libId]), CodeInterpreter], 0.3, "auto")
      ensures agents == old(agents) + [agent]
      ensures libraries == old(libraries) && documents == old(documents)
    {
      agent := Agent(nextId, AgentModel, name, AgentDescription, AgentInstructions,
                     [DocumentLibrary([libId]), CodeInterpreter], 0.3, "auto");
      agents := agents + [agent];
      nextId := nextId + 1;
    }

    /** `create_agent`: a library is created first, then the files are sent;
        with nothing uploaded no agent is created, but the library stays.
        `listing` is what `get_code_files` returned for the codebase. */
    method CreateAgent(name: string, listing: Result<seq<string>, CodeBase.CodeBaseError>, fails: set<nat>)
      returns (r: Result<Agent, SetupError>)
      requires Valid()
      modifies this
      ensures Valid()
      ensures CreatedAgent(name, listing, fails, old(libraries), old(documents), old(agents), libraries, documents, agents, r)
    {
      var library := CreateLibrary(name + "_LIB", LibraryDescription);
      var libId := library.id;
      if listing.Failure? {
        return Failure(ListingFailed(listing.error));
      }
      ghost var docs := documents;
      var uploadedFiles, errors := SendFiles(libId, listing.value, fails);
      assert [] + uploadedFiles == uploadedFiles;
      assert documents == docs[libId := uploadedFiles];
      if |uploadedFiles| == 0 {
        return Failure(NoFilesUploaded);
      }
      var agent := NewAgent(name, libId);
      return Success(agent);
    }

    /** `get_agent`: the first listed agent with the configured name, or a
        newly created one when there is none. */
    method GetAgent(name: string, listing: Result<seq<string>, CodeBase.CodeBaseError>, fails: set<nat>)
      returns (r: Result<Agent, SetupError>)
      requires Valid()
      modifies this
      ensures Valid()
      ensures FindByName(old(agents), name).Some? ==>
                r == Success(old(agents)[FindByName(old(agents), name).value])
                && libraries == old(libraries) && documents == old(documents) && agents == old(agents)
      ensures FindByName(old(agents), name).None? ==>
                CreatedAgent(name, listing, fails, old(libraries), old(documents), old(agents), libraries, documents, agents, r)
      ensures r.Success? ==> FindByName(agents, name).Some? && agents[FindByName(agents, name).value] == r.value
    {
      var listed := agents;
      for i := 0 to |listed|
        invariant forall j :: 0 <= j < i ==> listed[j].name != name
      {
        if listed[i].name == name {
          FindByNameFirst(listed, name, i);
          return Success(listed[i]);
        }
      }
      r := CreateAgent(name, listing, fails);
      if r.Success? {
        FindByNameFirst(agents, name, |listed|);
      }
    }
  }
}
