/**
 * The repository route the orchestration depends on: deleting a
 * repository. The other repository routes (create, list, detail) are not
 * part of this model.
 */
module RepoRoutes {
  import opened Wrappers
  import opened Records

  /**
   * DELETE /repos/:id; `false` is the 404 reply. Only the repository row
   * goes: the rows that refer to it stay, and the joins of the other routes
   * no longer find it.
   */
  function DeleteRepo(s: Store, id: nat): (r: (bool, Store))
    ensures r.0 <==> HasRepo(s, id)
    ensures !HasRepo(r.1, id)
    ensures forall k :: k != id ==> RepoAt(r.1, k) == RepoAt(s, k)
    ensures r.1.pipelines == s.pipelines && r.1.jobs == s.jobs && r.1.webhooks == s.webhooks && r.1.queue == s.queue
  {
    if HasRepo(s, id) then (true, s.(repos := s.repos[id := None])) else (false, s)
  }
}
