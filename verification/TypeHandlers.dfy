/** The element types of RepeatedPtrField: what TypeHandler::Merge does for strings and for messages (repeated_field.h). */
module TypeHandlers {
  import opened Bytes
  import opened Messages
  import Spec = RepeatedPtrSpec
  import opened RepeatedPtrFamilies

  /** StringTypeHandlerBase::Merge */
  function AssignString(to: Bytes, from: Bytes): Bytes { from }

  /** GenericTypeHandler::Merge */
  function MergeMessage(to: Message, from: Message): Message { MergeFrom(to, from) }

  lemma StringsMergeOntoEmpty()
    ensures Spec.MergesOntoEmpty(AssignString, [])
  {
  }

  lemma MessagesMergeOntoEmpty()
    ensures Spec.MergesOntoEmpty(MergeMessage, Messages.EMPTY)
  {
    forall m: Message
      ensures MergeMessage(Messages.EMPTY, m) == m
    {
      assert map[] + m.known == m.known && [] + m.unknown == m.unknown;
    }
  }

  /** A message that is not cleared shows through what is merged into it, which is why the pool has to be clean. */
  lemma LeftoversShow(dirty: Message)
    ensures (forall m: Message :: MergeMessage(dirty, m) == m) <==> dirty == Messages.EMPTY
  {
    MessagesMergeOntoEmpty();
    if forall m: Message :: MergeMessage(dirty, m) == m {
      assert MergeMessage(dirty, Messages.EMPTY) == Messages.EMPTY;
      assert dirty.known + map[] == dirty.known && dirty.unknown + [] == dirty.unknown;
    }
  }

  /** Repeated messages, merged and copied among each other, behave as plain sequences of messages. */
  lemma RepeatedMessagesAreSequences(es: seq<Event<Message>>)
    requires CanAllHappen(NoFields(Messages.EMPTY, MergeMessage), es)
    ensures AllValues(AllHappen(NoFields(Messages.EMPTY, MergeMessage), es)) == AllOnSequences(NoFields(Messages.EMPTY, MergeMessage), [], es)
  {
    MessagesMergeOntoEmpty();
    EveryFamilyRunConserves(Messages.EMPTY, MergeMessage, es);
  }

  /** So do repeated strings. */
  lemma RepeatedStringsAreSequences(es: seq<Event<Bytes>>)
    requires CanAllHappen(NoFields([], AssignString), es)
    ensures AllValues(AllHappen(NoFields([], AssignString), es)) == AllOnSequences(NoFields([], AssignString), [], es)
  {
    StringsMergeOntoEmpty();
    EveryFamilyRunConserves([], AssignString, es);
  }
}
