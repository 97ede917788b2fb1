/** The submission rule of the mosaic survey form: a response without a name
    or without a mosaic is refused; otherwise the saved record holds the four
    metadata fields, overwritten or extended by the indicator answers. */
module Submission {
  import opened Wrappers
  import opened OrderedDict

  const NameField := "Nome"
  const ContactField := "Contato"
  const MosaicField := "Mosaico"
  const TimestampField := "Timestamp"

  /** The metadata part of data_to_save, before the answers are merged in. */
  function Metadata(nome: string, contato: string, mosaico: string, timestamp: string): (d: Dict<string, string>)
    ensures DistinctKeys(d)
    ensures Get(d, NameField) == Some(nome) && Get(d, ContactField) == Some(contato)
    ensures Get(d, MosaicField) == Some(mosaico) && Get(d, TimestampField) == Some(timestamp)
    ensures forall k :: k !in {NameField, ContactField, MosaicField, TimestampField} ==> Get(d, k).None?
  {
    var d := [(NameField, nome), (ContactField, contato), (MosaicField, mosaico), (TimestampField, timestamp)];
    assert d[1..][1..] == [(MosaicField, mosaico), (TimestampField, timestamp)];
    assert d[1..][1..][1..] == [(TimestampField, timestamp)];
    assert Get(d[1..][1..], TimestampField) == Some(timestamp);
    assert Get(d[1..], TimestampField) == Some(timestamp);
    d
  }

  /** `data_to_save.update(answers)`, one answer at a time. */
  method MergeAnswers(base: Dict<string, string>, answers: Dict<string, string>) returns (data: Dict<string, string>)
    ensures data == Update(base, answers)
  {
    data := base;
    var i := 0;
    while i < |answers|
      invariant 0 <= i <= |answers|
      invariant data == Update(base, answers[..i])
    {
      assert answers[..i + 1][..i] == answers[..i];
      data := Put(data, answers[i].0, answers[i].1);
      i := i + 1;
    }
    assert answers[..i] == answers;
  }

  /** The submit handler: `None` is the warning branch (nothing saved); otherwise
      the record that is saved. The time of submission is a parameter. */
  method BuildSubmission(nome: string, contato: string, mosaico: string, timestamp: string, answers: Dict<string, string>)
    returns (record: Option<Dict<string, string>>)
    requires DistinctKeys(answers)
    ensures record.None? <==> nome == [] || mosaico == []
    ensures record.Some? ==> DistinctKeys(record.value)
    ensures record.Some? ==>
              forall k :: Get(record.value, k) == if Get(answers, k).Some? then Get(answers, k)
                                                  else Get(Metadata(nome, contato, mosaico, timestamp), k)
  {
    if nome == [] || mosaico == [] {
      return None;
    }
    var base := Metadata(nome, contato, mosaico, timestamp);
    var data := MergeAnswers(base, answers);
    UpdateDistinct(base, answers);
    forall k ensures Get(data, k) == if Get(answers, k).Some? then Get(answers, k) else Get(base, k) {
      UpdateGet(base, answers, k);
    }
    return Some(data);
  }

  /** A record that is saved carries the name and mosaic it was accepted with,
      unless an indicator answer is filed under the same column name. */
  lemma SavedRecordNamesRespondent(nome: string, contato: string, mosaico: string, timestamp: string, answers: Dict<string, string>)
    requires DistinctKeys(answers)
    requires Get(answers, NameField).None? && Get(answers, MosaicField).None?
    ensures Get(Update(Metadata(nome, contato, mosaico, timestamp), answers), NameField) == Some(nome)
    ensures Get(Update(Metadata(nome, contato, mosaico, timestamp), answers), MosaicField) == Some(mosaico)
  {
    UpdateGet(Metadata(nome, contato, mosaico, timestamp), answers, NameField);
    UpdateGet(Metadata(nome, contato, mosaico, timestamp), answers, MosaicField);
  }
}
