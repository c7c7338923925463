/**
 * A file from its creation to its last read: the master records the size, the client moves the
 * bytes, and neither of them tells the other.
 */
module FileLifetimes {
  import opened Common
  import opened NamespaceTree
  import opened NamespaceStore
  import opened NamespaceOps
  import opened NamespaceSafety
  import opened NamespaceMeaning
  import Clients = FileClients

  ghost predicate HasWordId(ns: Nodes, path: seq<Text>)
  {
    Walk(ns, ROOT, path).Some? ==> Walk(ns, ROOT, path).value < 0x1_0000_0000_0000_0000
  }

  /** What the master answers about a path: the inode id and the recorded size. */
  ghost function Info(ns: Nodes, path: seq<Text>): Clients.Target
    requires HasWordId(ns, path)
  {
    match Walk(ns, ROOT, path)
    case None => Clients.Refused(NotFound)
    case Some(id) => if id in ns then Clients.Known(id, ns[id].size) else Clients.Refused(NotFound)
  }

  /** Completing a file changes the answer about its own path to the new size, and no other answer. */
  lemma CompleteRecords(s: Sys, ns: Nodes, path: seq<Text>, id: InodeId, size: nat, env: Env) returns (after: Nodes)
    requires Inv(s, ns) && Walk(ns, ROOT, path) == Some(id) && id in ns && !ns[id].isDir && id < 0x1_0000_0000_0000_0000
    ensures var o := CompleteStep(s, id, size, env);
            && (o.status == Ok <==> env.commitOk(0)) && Inv(o.sys, after)
            && HasWordId(after, path) && Info(after, path) == Clients.Known(id, if o.status == Ok then size else ns[id].size)
            && (forall r | r != path && HasWordId(ns, r) :: HasWordId(after, r) && Info(after, r) == Info(ns, r))
  {
    hide Linked, Rooted, Holds, Caches, Counted, Walk, CompleteStep, SafeStore, SafeTrace;
    CompleteKeeps(s, ns, id, size, env);
    after := ns;
    if env.commitOk(0) {
      var node := ns[id].(size := size, isComplete := true, mtime := env.now(0));
      after := ns[id := node];
      forall r ensures Walk(after, ROOT, r) == Walk(ns, ROOT, r) && (Walk(ns, ROOT, r) == Some(id) ==> r == path) {
        WalkAfterRewrite(ns, id, node, ROOT, r);
        if Walk(ns, ROOT, r) == Some(id) { OnePath(ns, id, path, r); }
      }
    }
  }

  lemma OnePath(ns: Nodes, id: InodeId, p: seq<Text>, q: seq<Text>)
    requires Tree(ns) && Walk(ns, ROOT, p) == Some(id) == Walk(ns, ROOT, q)
    ensures p == q
  {
    PathUnique(ns, p, q, id);
  }

  /**
   * A file is created and the creating client writes it.  Until someone completes it every read is
   * empty; once it is completed with some size, every read returns exactly what was written if and
   * only if that size serves.
   */
  lemma CreateWriteCompleteRead(s: Sys, ns: Nodes, path: seq<Text>, mode: nat, env: Env, f: Clients.Files, buf: seq<byte>, net: Clients.Net,
                                size: nat, done: Env, later: Clients.Net)
    returns (created: Nodes, completed: Nodes)
    requires Inv(s, ns) && env.counterOk(0) && CreateFileStep(s, path, mode, env).status == Ok
    requires CreateFileStep(s, path, mode, env).id < 0x1_0000_0000_0000_0000
    requires Clients.Stored(f, CreateFileStep(s, path, mode, env).id, []) && |buf| <= Clients.MAX_FILE
    requires Clients.Reliable(net) && Clients.Reliable(later) && done.commitOk(0)
    ensures var o := CreateFileStep(s, path, mode, env);
            var w := Clients.WriteTarget(f, Clients.Created(o.id, true), buf, 0, net);
            && w.status == Ok && w.written == Some(|buf|)
            && Inv(o.sys, created) && HasWordId(created, path) && Info(created, path) == Clients.Known(o.id, 0)
            && (forall n: nat, offset: nat :: Clients.ReadTarget(w.files, Info(created, path), n, offset, later) == Clients.ReadResult(Ok, Some([])))
            && var c := CompleteStep(o.sys, o.id, size, done);
               && c.status == Ok && Inv(c.sys, completed) && HasWordId(completed, path) && Info(completed, path) == Clients.Known(o.id, size)
               && (Clients.ReadsExactly(w.files, o.id, size, buf, later) <==> Clients.SizeServes(size, |buf|))
  {
    hide Linked, Rooted, Holds, Caches, Counted, Walk, CompleteStep, CreateFileStep, SafeStore, SafeTrace;
    hide Clients.Stored, Clients.WriteTarget, Clients.ReadFrom, Clients.ReadsExactly, Clients.SizeServes, Clients.Reliable;
    var o := CreateFileStep(s, path, mode, env);
    created := CreateFileMeaning(s, ns, path, mode, env);
    completed := CompleteRecords(o.sys, created, path, o.id, size, done);
    Clients.WriteReadRoundTrip(f, o.id, buf, net, size, later);
  }

  /** A file that was created before the write, and has no blocks yet, cannot be written at all. */
  lemma CreatedEarlierIsStuck(s: Sys, ns: Nodes, path: seq<Text>, mode: nat, env: Env, f: Clients.Files, buf: seq<byte>, offset: nat, net: Clients.Net)
    returns (created: Nodes)
    requires Inv(s, ns) && env.counterOk(0) && CreateFileStep(s, path, mode, env).status == Ok
    requires CreateFileStep(s, path, mode, env).id < 0x1_0000_0000_0000_0000
    requires Clients.Stored(f, CreateFileStep(s, path, mode, env).id, []) && Clients.Reliable(net)
    requires buf != [] && offset + |buf| <= Clients.MAX_FILE
    ensures Inv(CreateFileStep(s, path, mode, env).sys, created) && HasWordId(created, path)
    ensures Clients.WriteTarget(f, Info(created, path), buf, offset, net) == Clients.WriteResult(f, Unavailable, Some(0))
  {
    hide Linked, Rooted, Holds, Caches, Counted, Walk, CreateFileStep, Clients.Stored, Clients.WriteTarget, Clients.Reliable;
    created := CreateFileMeaning(s, ns, path, mode, env);
    Clients.FirstWrite(f, Info(created, path), buf, offset, net);
  }
}
