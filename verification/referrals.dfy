/**
 Registrations run one after another against the same store, all carrying the
 same referral code. Run sequentially, every successful registration pays the
 inviter exactly once: no increment is lost.
 */
module Referrals {
  import opened Roles
  import opened Users
  import opened AuthControllers

  /** The fields of one registration request besides the shared code. */
  datatype Request = Request(name: string, email: string, password: string, now: nat)

  datatype Run = Run(store: Store, registered: nat)

  /** Apply the requests in order; report the final store and how many of
      them were registered. */
  function RegisterAll(s: Store, reqs: seq<Request>, refer: string, hash: string -> string): (r: Run)
    ensures r.registered <= |reqs|
    ensures |r.store| == |s| + r.registered
    decreases |reqs|
  {
    if |reqs| == 0 then Run(s, 0)
    else
      var q := reqs[0];
      var step := Register(s, q.name, q.email, q.password, refer, q.now, hash);
      var rest := RegisterAll(step.store, reqs[1..], refer, hash);
      Run(rest.store, rest.registered + if step.reply.Registered? then 1 else 0)
  }

  /** One registration carrying the code of account `k` in a valid store
      credits `k` exactly once if it succeeds and leaves it alone otherwise;
      `k` keeps its place and username, and the store stays valid. */
  lemma RegisterPaysInviter(s: Store, q: Request, refer: string, hash: string -> string, k: nat)
    requires Valid(s) && k < |s| && s[k].username == refer
    ensures var step := Register(s, q.name, q.email, q.password, refer, q.now, hash);
            && Valid(step.store)
            && k < |step.store|
            && step.store[k].username == refer
            && step.store[k].credit == s[k].credit + (if step.reply.Registered? then ReferralBonus else 0)
  {
    var step := Register(s, q.name, q.email, q.password, refer, q.now, hash);
    if step.reply.Registered? {
      assert HasUsername(s, refer);
      SelfReferralGuardRedundant(s, q.name, q.email, q.password, refer, q.now, hash);
      var created := s + [Fresh(Requested(q.name, q.email, q.password, q.now, hash))];
      var j :| FirstWithUsername(s, refer, j) && BonusPaid(created, step.store, j, |s|);
      UsernameIsFirst(s, refer, k);
      assert j == k;
      assert created[k] == s[k];
    }
  }

  /** Registering the requests in order, all with the code of account `k`,
      raises `k`'s credit by exactly the bonus times the number registered. */
  lemma {:induction false} InviterCreditCountsRegistrations(s: Store, reqs: seq<Request>, refer: string,
                                                            hash: string -> string, k: nat)
    requires Valid(s) && k < |s| && s[k].username == refer
    ensures var run := RegisterAll(s, reqs, refer, hash);
            && Valid(run.store)
            && k < |run.store|
            && run.store[k].credit == s[k].credit + ReferralBonus * run.registered
    decreases |reqs|
  {
    if |reqs| > 0 {
      var q := reqs[0];
      var step := Register(s, q.name, q.email, q.password, refer, q.now, hash);
      RegisterPaysInviter(s, q, refer, hash, k);
      InviterCreditCountsRegistrations(step.store, reqs[1..], refer, hash, k);
    }
  }
}
