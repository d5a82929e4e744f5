/**
 The three papers `handleSearch` installs in place of a real query, and the
 citation graph they produce.
 */
module MockCorpus {
  import opened Papers
  import opened CitationGraph
  import Seqs
  import PublicationTypes

  const QuantumNetworksTitle := "Квантовые нейронные сети: интеграция квантовых вычислений и глубокого обучения"
  const NisqTitle := "Квантовые вычисления: теория и практика в эпоху NISQ-устройств"
  const TransformersTitle := "Трансформерные модели в обработке естественного языка: достижения и перспективы"

  /** The mock papers have distinct identifiers, and each carries one of the
      publication types the search form offers. */
  lemma MockIdsAndTypes()
    ensures forall i, j :: 0 <= i < j < |MockPapers()| ==> MockPapers()[i].id != MockPapers()[j].id
    ensures forall i :: 0 <= i < |MockPapers()| ==> MockPapers()[i].publicationType in PublicationTypes.OfferedTypes
  {
  }

  /** The mock result list, in the order the component shows it. */
  function MockPapers(): (r: seq<Paper>)
    ensures |r| == 3
  {
    [
      Paper(
        "1", QuantumNetworksTitle, "Иванов И.И.", "Институт квантовой информатики",
        "Русский", "2023-05-15", "Научная статья", Indicators(45, 12, 4.5),
        "", "", ["квантовые вычисления", "глубокое обучение", "нейронные сети", "квантовый искусственный интеллект"],
        "Полный текст статьи...", [NisqTitle, TransformersTitle]),
      Paper(
        "2", NisqTitle, "Петров П.П.", "Квантовый исследовательский центр",
        "Русский", "2023-04-20", "Обзорная статья", Indicators(78, 15, 5.2),
        "", "", ["квантовые вычисления", "NISQ", "квантовые алгоритмы", "квантовая оптимизация"],
        "Полный текст статьи...", [QuantumNetworksTitle]),
      Paper(
        "3", TransformersTitle, "Сидорова С.С.", "Лаборатория искусственного интеллекта",
        "Русский", "2023-06-01", "Экспериментальное исследование", Indicators(32, 8, 3.8),
        "", "", ["обработка естественного языка", "трансформеры", "машинное обучение", "NLP"],
        "Полный текст статьи...", [QuantumNetworksTitle])
    ]
  }

  lemma MockTitlesResolve()
    ensures FindIndex(MockPapers(), QuantumNetworksTitle) == 0
    ensures FindIndex(MockPapers(), NisqTitle) == 1
    ensures FindIndex(MockPapers(), TransformersTitle) == 2
  {
    var ps := MockPapers();
    assert QuantumNetworksTitle != NisqTitle && QuantumNetworksTitle != TransformersTitle;
    assert NisqTitle != TransformersTitle;
    assert FirstTitled(ps, QuantumNetworksTitle, 0);
    assert FirstTitled(ps, NisqTitle, 1);
    assert FirstTitled(ps, TransformersTitle, 2);
  }

  lemma MockPaperEdges0()
    ensures PaperEdges(MockPapers(), 0) == [Edge(0, 1), Edge(0, 2)]
  {
    var ps := MockPapers();
    MockTitlesResolve();
    var raw := RawEdges(ps, 0, ps[0].references);
    assert raw == [Edge(0, 1), Edge(0, 2)];
    Seqs.KeepAll(raw, Resolved);
  }

  lemma MockPaperEdges1()
    ensures PaperEdges(MockPapers(), 1) == [Edge(1, 0)]
  {
    var ps := MockPapers();
    MockTitlesResolve();
    var raw := RawEdges(ps, 1, ps[1].references);
    assert raw == [Edge(1, 0)];
    Seqs.KeepAll(raw, Resolved);
  }

  lemma MockPaperEdges2()
    ensures PaperEdges(MockPapers(), 2) == [Edge(2, 0)]
  {
    var ps := MockPapers();
    MockTitlesResolve();
    var raw := RawEdges(ps, 2, ps[2].references);
    assert raw == [Edge(2, 0)];
    Seqs.KeepAll(raw, Resolved);
  }

  /** On the mock list the nodes weigh 45, 78 and 32 and the edges are exactly
      0 -> 1, 0 -> 2, 1 -> 0 and 2 -> 0. */
  lemma MockGraph()
    ensures BuildNodes(MockPapers()) == [
              Node(0, QuantumNetworksTitle, 45),
              Node(1, NisqTitle, 78),
              Node(2, TransformersTitle, 32)]
    ensures BuildEdges(MockPapers()) == [Edge(0, 1), Edge(0, 2), Edge(1, 0), Edge(2, 0)]
  {
    var ps := MockPapers();
    MockPaperEdges0();
    MockPaperEdges1();
    MockPaperEdges2();
    var blocks := Blocks(ps);
    assert blocks == [[Edge(0, 1), Edge(0, 2)], [Edge(1, 0)], [Edge(2, 0)]];
    assert blocks[1..][1..][1..] == [];
  }
}
