/**
  The in-process gateway: it binds an approval id to an action hash and hands
  out each approval once. Ids are made from tool and action only, so a later
  request can rebind an id that is still waiting to be consumed.
 */
module Gateway {
  import opened Options
  import opened Digests
  import opened Actions
  import W = Wrappers

  /** `pinned` is empty unless every approval is bound to one given hash. */
  datatype Books = Books(pinned: string, issued: map<string, string>, consumed: set<string>)

  predicate Untrusted(sourceTrust: string) {
    sourceTrust == "untrusted_external" || sourceTrust == "malicious_suspected"
  }

  function ApprovalId(a: Action): string {
    "apr_" + a.tool + "_" + a.action
  }

  /** The gateway always hashes a call as one that mutates state. */
  function Frozen(a: Action): Action {
    a.(mutatesState := true)
  }

  ghost function BoundHash(h: Hash, pinned: string, a: Action): string {
    if pinned != "" then pinned else ActionHash(h, Frozen(a))
  }

  /** The books after an authorize request, and its answer. */
  ghost function AuthorizeOn(h: Hash, books: Books, a: Action, sourceTrust: string): (Books, W.AuthAnswer) {
    if Untrusted(sourceTrust) then (books, W.Decision("deny", None, {}))
    else
      var hash := BoundHash(h, books.pinned, a);
      (books.(issued := books.issued[ApprovalId(a) := hash]),
       W.Decision("require_approval", Some(W.Approval(ApprovalId(a), hash, false)), {}))
  }

  /** The books after a consume request, and its answer. */
  function ConsumeOn(books: Books, id: string, claim: Option<string>): (Books, W.ConsumeAnswer) {
    if id in books.consumed || id !in books.issued || books.issued[id] == "" then (books, W.ConsumeError)
    else if claim.Some? && claim.value != books.issued[id] then (books, W.ConsumeError)
    else (books.(consumed := books.consumed + {id}), W.Consumed(books.issued[id]))
  }

  /** The answer to a poll: always approved, with the hash now bound. */
  function StatusOn(books: Books, id: string): W.PollAnswer {
    W.Status("APPROVED", if id in books.issued then books.issued[id] else "", false, None)
  }

  /** The same gateway as an object that updates its books in place. */
  class DemoGateway {
    const h: Hash
    const pinned: string
    var issued: map<string, string>
    var consumed: set<string>

    ghost function View(): Books
      reads this
    {
      Books(pinned, issued, consumed)
    }

    constructor (h: Hash, pinned: string)
      ensures this.h == h && View() == Books(pinned, map[], {})
    {
      this.h := h;
      this.pinned := pinned;
      issued := map[];
      consumed := {};
    }

    method Authorize(a: Action, sourceTrust: string) returns (answer: W.AuthAnswer)
      modifies this
      ensures (View(), answer) == AuthorizeOn(h, old(View()), a, sourceTrust)
      ensures answer == W.Decision("deny", None, {}) <==> sourceTrust in {"untrusted_external", "malicious_suspected"}
      ensures answer.decision == "deny" ==> View() == old(View())
      ensures answer.decision != "deny" ==> answer.decision == "require_approval" && answer.approval.Some?
    {
      if sourceTrust == "untrusted_external" || sourceTrust == "malicious_suspected" {
        return W.Decision("deny", None, {});
      }
      var hash := pinned;
      if pinned == "" {
        hash := CanonicalHash(h, ActionValue(Frozen(a)));
      }
      var id := "apr_" + a.tool + "_" + a.action;
      issued := issued[id := hash];
      answer := W.Decision("require_approval", Some(W.Approval(id, hash, false)), {});
    }

    method GetApprovalStatus(id: string) returns (answer: W.PollAnswer)
      ensures answer == StatusOn(View(), id)
    {
      answer := W.Status("APPROVED", if id in issued then issued[id] else "", false, None);
    }

    method ConsumeApproval(id: string, claim: Option<string>) returns (answer: W.ConsumeAnswer)
      modifies this
      ensures (View(), answer) == ConsumeOn(old(View()), id, claim)
      ensures answer.Consumed? ==> id !in old(consumed) && id in consumed
    {
      if id in consumed {
        return W.ConsumeError;
      }
      if id !in issued || issued[id] == "" {
        return W.ConsumeError;
      }
      if claim.Some? && claim.value != issued[id] {
        return W.ConsumeError;
      }
      consumed := consumed + {id};
      answer := W.Consumed(issued[id]);
    }
  }
}
