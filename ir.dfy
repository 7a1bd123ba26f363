/**
 * The IR of a pipelined loop, as an arena of operation records.
 *
 * An operation is addressed by its index in the arena. It records the block
 * it sits in, a kind tag (only the distinctions the pipeliner inspects), the
 * optional `loop.stage` and `loop.cluster` attributes, and the list of its
 * users (one entry per use, so a user appears as often as it uses the value).
 * Ops of one block appear in the arena in program order.
 */
module Ir {
  import opened Wrappers

  /** Kind tag of an operation. */
  datatype OpKind =
    | Load                      // tt.load
    | DescLoad                  // tt.experimental_descriptor_load
    | DescGather                // tt.experimental_descriptor_gather
    | Dot(scaled: bool)         // an op of the dot interface; `scaled` for tc_gen5_mma_scaled
    | LocalAlloc(nvmma: bool)   // ttg.local_alloc; `nvmma` when its encoding is NVMMA shared
    | Other

  datatype Op = Op(kind: OpKind, block: nat, stage: Option<int>, cluster: Option<int>, users: seq<nat>)

  type Arena = seq<Op>

  /** `(stage, cluster)` pair, compared lexicographically. */
  datatype StageCluster = SC(stage: int, cluster: int)

  predicate IsLoadKind(k: OpKind) {
    k == Load || k == DescLoad || k == DescGather
  }

  predicate IsDescriptorKind(k: OpKind) {
    k == DescLoad || k == DescGather
  }

  /** Both scheduling attributes are present. */
  predicate Annotated(op: Op) {
    op.stage.Some? && op.cluster.Some?
  }

  /** The pair read by `tt::getStageCluster`, which needs both attributes. */
  function GetStageCluster(op: Op): StageCluster
    requires Annotated(op)
  {
    SC(op.stage.value, op.cluster.value)
  }

  /** `a` is strictly before `b`: lower stage, or same stage and lower cluster. */
  predicate Precedes(a: StageCluster, b: StageCluster) {
    a.stage < b.stage || (a.stage == b.stage && a.cluster < b.cluster)
  }

  /** Every user index addresses an op of the arena. */
  predicate UsersInArena(ops: Arena) {
    forall i, k :: 0 <= i < |ops| && 0 <= k < |ops[i].users| ==> ops[i].users[k] < |ops|
  }

  /** Every user of op `i` that sits in op `i`'s block carries both attributes. */
  predicate InBlockUsersAnnotated(ops: Arena, i: nat)
    requires i < |ops| && UsersInArena(ops)
  {
    forall k :: 0 <= k < |ops[i].users| && ops[ops[i].users[k]].block == ops[i].block ==>
      Annotated(ops[ops[i].users[k]])
  }
}
